/** Block sync: what a peer serves to a lagging replica, and when importing it catches the replica up. */
module BlockSync {
  import opened Wrappers
  import opened HotStuffTypes
  import opened ReplicaLogic
  import opened VoteLog
  import opened ReplicaSystem
  import opened Agreement
  import BR = BftReplicaObject

  const MAX_SERVED: nat := 1_000_000

  /** The blocks from h back to, but not including, `have` or genesis, oldest first. */
  function Served(blocks: BlockStore, h: Hash, have: Hash, steps: nat): seq<Block>
    decreases h
  {
    if h in blocks && h != GENESIS && h != have && steps > 0 then
      assert h == HashOf(blocks[h]);
      Served(blocks, blocks[h].parent, have, steps - 1) + [blocks[h]]
    else []
  }

  lemma ReversedAppend(chain: seq<Block>, b: Block)
    ensures BR.Reversed(chain + [b]) == [b] + BR.Reversed(chain)
  {
    assert (chain + [b])[..|chain|] == chain;
  }

  lemma ServedStep(blocks: BlockStore, h: Hash, have: Hash, steps: nat, chain: seq<Block>)
    requires h in blocks && h != GENESIS && h != have && steps > 0
    ensures Served(blocks, h, have, steps) + BR.Reversed(chain)
      == Served(blocks, blocks[h].parent, have, steps - 1) + BR.Reversed(chain + [blocks[h]])
  {
    ReversedAppend(chain, blocks[h]);
  }

  /** The body of the sync request handler. */
  method ServeSync(blocks: BlockStore, tip: Hash, have: Hash) returns (chain: seq<Block>)
    ensures chain == Served(blocks, tip, have, MAX_SERVED)
  {
    chain := [];
    var h, steps := tip, 0;
    while h in blocks && h != GENESIS && h != have && steps < MAX_SERVED
      invariant 0 <= steps <= MAX_SERVED
      invariant Served(blocks, tip, have, MAX_SERVED) == Served(blocks, h, have, MAX_SERVED - steps) + BR.Reversed(chain)
    {
      ServedStep(blocks, h, have, MAX_SERVED - steps, chain);
      assert h == HashOf(blocks[h]);
      chain := chain + [blocks[h]];
      h := blocks[h].parent;
      steps := steps + 1;
    }
    chain := BR.Reversed(chain);
  }

  /** A stored block that the requester still needs. */
  ghost predicate Wanted(blocks: BlockStore, have: Hash, h: Hash) {
    h in blocks && h != GENESIS && h != have
  }

  /** What is served is the unbroken line of wanted blocks that ends at the tip, as far back as it goes or the limit
      allows. */
  lemma {:induction false} ServedExactly(blocks: BlockStore, tip: Hash, have: Hash, steps: nat)
    ensures var chain := Served(blocks, tip, have, steps);
      && |chain| <= steps
      && (forall i :: 0 <= i < |chain| ==> Wanted(blocks, have, HashOf(chain[i])))
      && (forall i :: 0 < i < |chain| ==> chain[i].parent == HashOf(chain[i - 1]))
      && (chain != [] ==> HashOf(chain[|chain| - 1]) == tip)
      && (|chain| == steps || !Wanted(blocks, have, if chain == [] then tip else chain[0].parent))
    decreases tip
  {
    if Wanted(blocks, have, tip) && steps > 0 {
      assert tip == HashOf(blocks[tip]);
      ServedExactly(blocks, blocks[tip].parent, have, steps - 1);
    }
  }

  /** The requester imports the served blocks one after the other. */
  function ImportAll(r: Replica, chain: seq<Block>): Replica
    requires r.committee.Valid()
    ensures ImportAll(r, chain).committee == r.committee
  {
    if chain == [] then r else Import(ImportAll(r, chain[..|chain| - 1]), chain[|chain| - 1]).0
  }

  /** Every stored block other than genesis has its parent stored and passes the import checks. */
  ghost predicate Importable(c: Committee, blocks: BlockStore)
    requires c.Valid()
  {
    && GENESIS in blocks
    && forall h :: h in blocks && h != GENESIS ==>
         h.HashOf? && h.block.parent in blocks && RightfulProposer(c, h.block) && JustifyHolds(c, h.block)
  }

  ghost predicate AllImportable(s: Setting, sys: Sys)
    requires s.c.Valid()
  {
    forall i :: 0 <= i < |sys.replicas| ==>
      sys.replicas[i].committee == s.c && Importable(s.c, sys.replicas[i].blocks)
  }

  lemma {:induction false} RunImportable(s: Setting, states: seq<Sys>, steps: seq<Step>, k: nat)
    requires s.c.Valid() && Run(s, states, steps) && k < |states|
    ensures AllImportable(s, states[k])
  {
    if k > 0 {
      RunImportable(s, states, steps, k - 1);
      assert StepTaken(s, states[k - 1], steps[k - 1], states[k]);
      StepImportable(s, states[k - 1], steps[k - 1]);
    }
  }

  lemma StepImportable(s: Setting, sys: Sys, step: Step)
    requires s.c.Valid() && AllImportable(s, sys)
    requires !step.ByzantineVote? ==> step.i < |sys.replicas|
    ensures AllImportable(s, Take(sys, step))
  {
    if !step.ByzantineVote? {
      var r := sys.replicas[step.i];
      if step.Proposal? {
        ProposalImportable(s.c, r, step.block);
      } else {
        LocalImportable(s.c, r, step);
      }
    }
  }

  lemma StoreImportable(c: Committee, blocks: BlockStore, b: Block)
    requires c.Valid() && Importable(c, blocks)
    requires b.parent in blocks && RightfulProposer(c, b) && JustifyHolds(c, b)
    ensures Importable(c, blocks[HashOf(b) := b])
  {
  }

  lemma ProposalImportable(c: Committee, r: Replica, b: Block)
    requires c.Valid() && r.committee == c && Importable(c, r.blocks)
    ensures OnProposal(r, b).0.committee == c && Importable(c, OnProposal(r, b).0.blocks)
  {
    if WillVote(r, b) {
      StoreImportable(c, r.blocks, b);
    }
  }

  lemma LocalImportable(c: Committee, r: Replica, step: Step)
    requires c.Valid() && r.committee == c && Importable(c, r.blocks)
    requires !step.ByzantineVote? && !step.Proposal?
    ensures Local(r, step).committee == c && Importable(c, Local(r, step).blocks)
  {
    if step.ImportBlock? && WillImport(r, step.block) {
      StoreImportable(c, r.blocks, step.block);
    }
  }

  // --- Importing what was served ---

  lemma {:induction false} ImportServed(c: Committee, server: BlockStore, r: Replica, h: Hash, have: Hash, steps: nat)
    requires c.Valid() && r.committee == c && Importable(c, server) && Importable(c, r.blocks)
    requires h in server && |Path(h)| <= steps + 2
    requires have in r.blocks || !IsAncestor(have, h) || have == NO_PARENT
    ensures h in ImportAll(r, Served(server, h, have, steps)).blocks
    ensures r.blocks.Keys <= ImportAll(r, Served(server, h, have, steps)).blocks.Keys
    decreases h
  {
    if h != GENESIS && h != have {
      assert h == HashOf(server[h]);
      var b := h.block;
      assert Path(h) == Path(b.parent) + [h];
      GenesisBelow(c, server, b.parent);
      ImportServed(c, server, r, b.parent, have, steps - 1);
      ImportLast(c, r, Served(server, b.parent, have, steps - 1), b);
    }
  }

  lemma ImportLast(c: Committee, r: Replica, before: seq<Block>, b: Block)
    requires c.Valid() && r.committee == c && b.parent in ImportAll(r, before).blocks
    requires RightfulProposer(c, b) && JustifyHolds(c, b)
    ensures HashOf(b) in ImportAll(r, before + [b]).blocks
    ensures ImportAll(r, before).blocks.Keys <= ImportAll(r, before + [b]).blocks.Keys
  {
    assert (before + [b])[..|before|] == before;
  }

  lemma {:induction false} GenesisBelow(c: Committee, blocks: BlockStore, h: Hash)
    requires c.Valid() && Importable(c, blocks) && h in blocks
    ensures |Path(h)| >= 2
  {
    assert Path(GENESIS) == Path(NO_PARENT) + [GENESIS];
  }

  /** A replica that lacks a block lacks all its descendants. */
  lemma {:induction false} MissingAncestor(c: Committee, blocks: BlockStore, a: Hash, h: Hash)
    requires c.Valid() && Importable(c, blocks) && a !in blocks && a != NO_PARENT && IsAncestor(a, h)
    ensures h !in blocks
    decreases h
  {
    assert Path(NO_PARENT) == [NO_PARENT];
    if h in blocks && h != a {
      assert h == HashOf(blocks[h]);
      assert Path(h) == Path(h.block.parent) + [h];
      MissingAncestor(c, blocks, a, h.block.parent);
    }
  }

  lemma {:induction false} NothingImported(c: Committee, server: BlockStore, r: Replica, h: Hash, have: Hash, steps: nat)
    requires c.Valid() && r.committee == c && Importable(c, server) && Importable(c, r.blocks)
    requires have !in r.blocks && have != NO_PARENT && IsAncestor(have, h)
    ensures ImportAll(r, Served(server, h, have, steps)) == r
    decreases h
  {
    if h in server && h != GENESIS && h != have && steps > 0 {
      assert h == HashOf(server[h]);
      var b := h.block;
      assert Path(h) == Path(b.parent) + [h];
      NothingImported(c, server, r, b.parent, have, steps - 1);
      MissingAncestor(c, r.blocks, have, b.parent);
      MissingAncestor(c, r.blocks, have, h);
      var before := Served(server, b.parent, have, steps - 1);
      assert (before + [b])[..|before|] == before;
    }
  }

  /** Importing never votes, never moves the view, and never undoes a commit. */
  lemma {:induction false} ImportKeepsVotes(r: Replica, chain: seq<Block>)
    requires r.committee.Valid()
    ensures var after := ImportAll(r, chain);
      && after.votedViews == r.votedViews && after.currentView == r.currentView
      && r.committed <= after.committed && after.lockedQc.view >= r.lockedQc.view
  {
    if chain != [] {
      ImportKeepsVotes(r, chain[..|chain| - 1]);
    }
  }

  /** Between any two honest replicas of a run, a sync of a block the server has and the requester lacks
      brings it in if and only if the frontier the requester names is a block it has itself, or is off the
      served branch.  The frontier is the block of the highest certificate, which a replica can hold without
      the block: it forms certificates from votes alone. */
  lemma SyncCatchesUpIff(s: Setting, states: seq<Sys>, steps: seq<Step>, k: nat, server: int, requester: int, tip: Hash)
    requires s.Valid() && Run(s, states, steps) && k < |states| && s.Honest(server) && s.Honest(requester)
    requires |states[k].replicas| == s.c.n
    requires states[k].replicas[requester].committee == s.c
    requires tip in states[k].replicas[server].blocks && tip !in states[k].replicas[requester].blocks
    requires |Path(tip)| <= MAX_SERVED + 2
    ensures var r := states[k].replicas[requester];
      var have := r.highQc.hash;
      var after := ImportAll(r, Served(states[k].replicas[server].blocks, tip, have, MAX_SERVED));
      && (tip in after.blocks <==> have in r.blocks || !IsAncestor(have, tip))
      && after.votedViews == r.votedViews && r.committed <= after.committed
  {
    RunInv(s, states, steps, k);
    RunImportable(s, states, steps, k);
    var r, blocks := states[k].replicas[requester], states[k].replicas[server].blocks;
    var have := r.highQc.hash;
    BackedJustified(s, states[k].log, r.highQc);
    JustifiedShape(s, states[k].log, have, r.highQc.view);
    ImportKeepsVotes(r, Served(blocks, tip, have, MAX_SERVED));
    if have in r.blocks || !IsAncestor(have, tip) {
      ImportServed(s.c, blocks, r, tip, have, MAX_SERVED);
    } else {
      NothingImported(s.c, blocks, r, tip, have, MAX_SERVED);
    }
  }

  // --- The bounded ancestry walk, exactly ---

  /** On a stored block the walk finds exactly the hashes within its step bound on the block's history. */
  lemma {:induction false} WalkExact(c: Committee, blocks: BlockStore, h: Hash, a: Hash, steps: nat)
    requires c.Valid() && Importable(c, blocks) && (h in blocks || h == NO_PARENT)
    ensures var p := Path(h);
      WalkFinds(blocks, h, a, steps) <==> a in p[if |p| - 1 <= steps then 0 else |p| - 1 - steps..]
    decreases h
  {
    var p := Path(h);
    if h == NO_PARENT || steps == 0 {
      assert p[|p| - 1..] == [h];
    } else {
      assert h == HashOf(blocks[h]);
      var q := Path(h.block.parent);
      assert p == q + [h];
      WalkExact(c, blocks, h.block.parent, a, steps - 1);
      OneMoreStep(q, h, a, steps);
    }
  }

  lemma OneMoreStep(q: seq<Hash>, h: Hash, a: Hash, steps: nat)
    requires |q| > 0 && steps > 0
    ensures a in (q + [h])[if |q| <= steps then 0 else |q| - steps..]
      <==> a == h || a in q[if |q| - 1 <= steps - 1 then 0 else |q| - 1 - (steps - 1)..]
  {
    AppendedSuffix(q[..if |q| <= steps then 0 else |q| - steps], q, h);
  }
}
