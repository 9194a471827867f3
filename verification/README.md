# O-Coin: a model of the chain and of its BFT finality layer

A Dafny model of three cores of O-Coin and proofs about every input, every reachable state and every run of them.
Nothing here runs the original program.

* **The chained-HotStuff layer** (`HotStuffTypes`, `Quorums`, `ReplicaLogic`, `BftReplica`, `ReplicaContracts`,
  `VoteLog`, `ReplicaSystem`, `Agreement`, `ReachedReplicas`, `RelaxedRuns`, `Branches`, `AgreementConditions`,
  `Accountability`, `EvidenceContracts`, `CulpritGuilt`, `BlockSync`, `SyncGap`, `HonestRounds`, `HonestRuns`,
  `FinalityGadget`). One replica is a class whose methods update its fields as the source does; each method is proved
  against a function on values, and `ReplicaContracts` and `ReachedReplicas` say what those functions answer in the
  protocol's own terms: signatures, quorums, linked blocks and views. The functions drive a step system: honest
  replicas receive any deliverable proposal, vote, NewView, imported block, view advance or timeout in any order,
  Byzantine validators add any vote under their own index. Agreement is proved over all its runs. The core of the
  argument is in `VoteLog`: the lock of this code is taken on a single certificate, so what makes a commit irrevocable
  is the quorum present when a block is first certified, and the order of the views of a block and of its certificate,
  which no line of the code compares, is derived from it.
* **The ledger and the chain** (`LedgerTypes`, `Ledger`, `LedgerEffects`, `LedgerTotals`, `LedgerSolvency`,
  `LedgerDebits`, `BlockIndependence`, `PoolBounds`, `ChainRules`, `ChainNode`, `BlockRules`, `ChainFacts`,
  `ChainRuns`, `ChainExamples`, `KeptBlocks`, `BlockTemplate`, `Blockchain`). All transaction kinds, the incremental
  balance index, the incremental and the from-scratch validator, reorganisations with the depth checkpoint and the
  finality veto. `LedgerEffects` gives the effect of each kind of transaction on every balance, `BlockRules` the rules
  of blocks, chains and reorganisations as if-and-only-if statements that name none of the functions that check them,
  and `ChainFacts` what follows for owners and producers.
* **Arithmetic and hashing kernels** (`Rounding`, `FixedPoint`, `Merkle`, `MedianTime`).

## How the model reads the source

* Hashes are symbolic terms, hence injective: a block hash is the header or block it was computed from, and a hash of
  no known block is a separate term. A signature is the pair of key and message; nobody can produce another's.
* Amounts are integers in micro-units (10^-6 of a coin). `round(x, 6)` is an exact rational rounded to the nearest
  integer, ties to even, which `LedgerEffects.Nearest` states as a condition that leaves one choice. An exchange rate
  is a pair of integers. Timestamps are integers in microseconds.
* The clock, the numeric values of the proof-of-work and kernel hashes, and the two retargeting rules are parameters.
  Whether a timeout has passed is an input of the step.
* The source's exceptions are values: `Refused`, `RaisedAfterAppend`, `Raises`, `Stopped`, `Slippage`.

## Side conditions of the agreement theorems

`AgreementIffConditions` states that they are exact: with at most f Byzantine validators, all runs agree if and only if
n = 3f+1 and none of the four below is lifted. For each one there is a run in which it alone is missing and two honest
replicas commit conflicting blocks; none of the four runs needs a Byzantine validator.

* `ExactSize`: n = 3f+1. `Committee` accepts every n of at least 4; for the others the run has at most f Byzantine
  validators.
* `InRange`: signer positions lie in [0, n). The code indexes a Python list, so -1 and n-1 select one key.
* A certificate for genesis has view 0. Such certificates are not verified.
* `Unforged`: nobody produces another's signature.
* Honest replicas keep `voted_views`: none restarts without its state.

Injective hashes are built into the terms of the model, so that no run without them can be stated.

## Where the code and its descriptions differ

The model follows the code.

* `bft_accountability.py:264-268` says that every validator in the overlap of two conflicting commits equivocates and
  is caught. `CaughtIffSameView` and `ProvesGuiltIffSameView` give the exact condition, which anyone can read off the
  evidence: the two committed blocks have the same view. For every other pair of views there is a run whose genuine
  evidence names an honest validator.
* `bft_accountability.py:222-226` derives f+1 culprits from a committee of 3f+1; the class accepts other sizes, and
  `NamesEnoughIffExactSize` shows that evidence with at most f culprits verifies for each of those.
* `blockchain.py:220` says the reward can never reach its floor. `FloorFromHeight` shows that it is the floor from
  height 2^31 on, and `FloorReachedIff` at exactly which heights.
* `blockchain.py:74-82` says that tampering with any transaction changes the Merkle root. `RootsAgreeIff` states
  exactly which lists share a root, and `RepeatUnnoticedIff` when a block that repeats its last transaction still
  meets the rules.
* `blockchain.py:765-771` says that the keys a transaction debited are returned. A stake withdrawal also debits the
  pool's OCN and does not return it; `DebitsAreListed` proves this the only omission, and `OpKeepsSolvent` that it
  does no harm.
* `bft_node.py:368-374` serves whatever is missing behind the requester's frontier. The frontier is the block of the
  highest certificate, which a replica can hold without the block; `SyncCatchesUpIff` states exactly when a sync then
  helps, and `SyncCanFail` gives a run in which it does not.
* `blockchain.py:1315-1331` checks ops on a copy that skips plain and coinbase transactions. `CheckingOpsIsSound`
  proves this enough for independent blocks; `DependentDepositAccepted` and `DependentSwapRaises` are blocks on
  reached nodes for which it is not.
* `blockchain.py:1062-1090` includes the highest fees first. `SelectedTemplateIff` states exactly when the result is a
  block the node accepts once solved, and `FeeOrderRefused` gives pending transactions that pass in the order they
  came and not in that of their fees.

## Model

| member | source | states |
|---|---|---|
| Quorums.QuorumsOverlapIffExactSize | bft_consensus.py:215-223 | any two sets of quorum size share more than f validators if and only if n = 3f+1 |
| Quorums.BarelyOverlapping | bft_consensus.py:215-223 | for every other accepted size there are two quorums that share at most f validators |
| Quorums.OneValidatorPerSigner | bft_consensus.py:168-183 | signer positions name as many validators as there are positions exactly when no two alias |
| Quorums.InRangeSignersAreQuorum | bft_consensus.py:168-183 | a certificate that verifies, with positions in [0, n), names a quorum of distinct validators |
| Quorums.AliasedCertificate | bft_consensus.py:168-183 | a certificate that verifies although fewer than a quorum of validators signed it, because two positions alias |
| AgreementConditions.AgreementIffExactSize | bft_consensus.py:215-223 | for every accepted committee: the committed lists of any two honest replicas agree in every run with at most f Byzantine validators if and only if n = 3f+1 |
| AgreementConditions.OtherSizesDisagree | bft_consensus.py:215-223 | for every other size, a run with at most f Byzantine validators and real certificates in which two honest replicas commit conflicting blocks |
| AgreementConditions.AgreementIffConditions | bft_consensus.py:168-183 | all runs with at most f Byzantine validators agree if and only if n = 3f+1 and no side condition is lifted: positions in range, genesis certified at view 0 only, no forgery, no restart without state |
| AgreementConditions.PositionsDisagree | bft_consensus.py:168-183 | with positions outside [0, n) two honest replicas commit conflicting blocks, with no Byzantine validator |
| AgreementConditions.GenesisViewsDisagree | bft_consensus.py:343-344 | so they do with one unverified genesis certificate above view 0 |
| AgreementConditions.RestartsDisagree | bft_consensus.py:255-267 | so they do when replicas restart without their votes |
| RelaxedRuns.StrictIsRun | bft_consensus.py:235-571 | a run with nothing lifted is a run of the protocol |
| Branches.FourthVoteCommits | bft_consensus.py:401-422 | a replica that votes for four certified blocks of consecutive views has committed the first |
| Branches.AlongWithin | bft_consensus.py:424-435 | and nothing off their branch |
| BftReplicaObject.BftReplica.constructor | bft_consensus.py:242-268 | a replica starts on genesis, in view 1, with nothing voted |
| BftReplicaObject.BftReplica.Propose | bft_consensus.py:274-282 | receivers find the proposer rightful exactly when it leads its view, and the certificate good exactly when its own highest certificate is genesis or verifies |
| BftReplicaObject.BftReplica.Extends | bft_consensus.py:284-297 | the loop computes the bounded walk that WalkExact characterises |
| BftReplicaObject.BftReplica.SafeToVote | bft_consensus.py:299-306 | is the locked block, extends it, or is justified above it |
| BftReplicaObject.BftReplica.OnReceiveProposal | bft_consensus.py:308-353 | the whole new state and the vote, on every refusing and accepting path, as the step system takes it |
| BftReplicaObject.BftReplica.TryImportBlock | bft_consensus.py:355-389 | the whole new state, known, refused and imported |
| BftReplicaObject.BftReplica.ApplyQc | bft_consensus.py:391-399 | highest certificate, lock and committed list after a certificate |
| BftReplicaObject.BftReplica.TryAdvanceLockAndCommit | bft_consensus.py:401-422 | the single-certificate lock and the three-chain commit rule |
| BftReplicaObject.BftReplica.CommitChainUpTo | bft_consensus.py:424-435 | appends exactly the uncommitted history, oldest first; the walk ends because a hash determines its parent |
| BftReplicaObject.BftReplica.OnReceiveVote | bft_consensus.py:438-477 | votes counted per block and view, and the certificate formed when a quorum is reached |
| BftReplicaObject.BftReplica.OnReceiveNewView | bft_consensus.py:526-571 | the whole new state and the answer: the best usable certificate of a quorum of distinct senders takes effect |
| BftReplicaObject.BftReplica.ValidQcs | bft_consensus.py:562-566 | exactly the certificates that verify or name genesis |
| BftReplicaObject.BftReplica.MaybeAdvanceView | bft_consensus.py:480-490 | one view further exactly when timed out |
| BftReplicaObject.BftReplica.AdvanceToView | bft_consensus.py:492-497 | the view never goes back |
| BftReplicaObject.BftReplica.MakeNewView | bft_consensus.py:499-524 | the message passes the receivers' signature check exactly when the sender's index lies in [0, n) |
| ReplicaContracts.VerifiesIff | bft_consensus.py:168-183 | a certificate verifies if and only if it lists at least 2f+1 different positions and its aggregate is the sum of exactly their validators' signatures on the vote |
| ReplicaContracts.ApplyQcApplied | bft_consensus.py:391-435 | highest certificate and lock are replaced exactly by a higher view; if the certificate ends three linked blocks of consecutive views whose first is not committed, the linked blocks from above the committed ones to it are appended, and otherwise nothing |
| ReplicaContracts.ProposalExactly | bft_consensus.py:308-353 | when a replica votes, in terms of views, leader, certificate and the bounded history of the block; the vote, and everything stored and remembered; otherwise nothing changes |
| ReplicaContracts.ImportExactly | bft_consensus.py:355-389 | when a block is imported, and the whole state afterwards |
| ReplicaContracts.VoteExactly | bft_consensus.py:438-477 | genuine votes are counted once per voter, and the one that completes a quorum makes the certificate of exactly the voters, which holds, take effect and the count start over |
| ReplicaContracts.NewViewExactly | bft_consensus.py:526-571 | the latest genuine message of each sender is kept; the one that completes a quorum is answered true exactly when a certificate offered holds or names genesis, and the first of the highest view takes effect |
| ReachedReplicas.RunKeeps | bft_consensus.py:462-477 | in every state of every run, collections hold genuine signatures of different senders for their key, fewer than a quorum, and the record of votes is what was cast |
| ReachedReplicas.VotesIff | bft_consensus.py:299-353 | in every reachable state: a replica votes if and only if the block is of its view, it has cast no vote for another block in it, the leader proposed it on a stored parent with a certificate that holds, and the locked block is the block itself or within 100_001 blocks below, or the certificate is newer; and what is then stored and sent |
| ReachedReplicas.OwnProposalIff | bft_consensus.py:274-282 | an honest replica of a run votes for its own proposal if and only if it leads the view, has voted for no other block in it and has the block of its highest certificate |
| ReachedReplicas.VoteInRun | bft_consensus.py:438-477 | what a replica of a run does with any vote |
| ReachedReplicas.NewViewInRun | bft_consensus.py:526-571 | what a replica of a run does with any NewView: a true answer leaves lock and highest certificate at least as high as every usable certificate of the quorum, each of them the old one or one of those |
| ReachedReplicas.HighestIsHeard | bft_consensus.py:499-571 | a view change loses nothing: a replica that answers true to an honest sender has certificates at least as high as the sender's |
| ReachedReplicas.LockedBlockVoted | bft_consensus.py:299-306 | a replica locked on a block it lacks votes for it and stores it, whatever the age of its certificate |
| ReachedReplicas.LockBeforeBlock | bft_consensus.py:299-306 | for every committee a run without Byzantine validators that leads there |
| HotStuffTypes.PathInjective | bft_consensus.py:424-435 | the block tree has no cycles: no hash occurs twice on a path |
| ReplicaLogic.BestQc | bft_consensus.py:569 | the chosen certificate is one of those offered and has the highest view |
| ReplicaLogic.UsableQcs | bft_consensus.py:562-566 | a certificate is usable if and only if it is in the bucket and verifies or names genesis |
| VoteLog.CertifiedShape | bft_consensus.py:308-353 | a certified hash is a block of the certified view with a justified parent, and the view of its certificate is strictly smaller although no line compares them |
| VoteLog.UniquePerView | bft_consensus.py:313-317 | at most one block per view is ever certified |
| VoteLog.AncestorsJustified | bft_consensus.py:321-348 | every ancestor of a justified block is justified, at smaller views, back to genesis |
| VoteLog.LockedVoter | bft_consensus.py:404-409 | some honest voter for a later certified block was locked at the committed view or later, on another block, before the block was certified |
| VoteLog.Irrevocable | bft_consensus.py:299-306 | once a block's child in the next view is certified, every justified block of its view or later extends it |
| VoteLog.TwoChainsAgree | bft_consensus.py:411-422 | of two committable blocks, the history of the one of smaller view is a prefix of the other's |
| ReplicaSystem.FormedQcVerifies | bft_consensus.py:471-475 | a certificate formed from a quorum of verified votes verifies |
| ReplicaSystem.CommitTargetTwoChain | bft_consensus.py:410-422 | what the three-chain rule commits is a block whose child in the next view is certified |
| ReplicaSystem.AfterCommitInv | bft_consensus.py:424-435 | applying a certificate leaves the committed list the complete history of a committable block, and only extends it |
| ReplicaSystem.WalkSound | bft_consensus.py:284-297 | what the bounded walk finds is an ancestor |
| ReplicaSystem.ProposalInv | bft_consensus.py:308-353 | a proposal step keeps the invariant of the vote log and of the replica |
| ReplicaSystem.ImportInv | bft_consensus.py:355-389 | so does an import, without a vote |
| ReplicaSystem.VoteInv | bft_consensus.py:438-477 | so does a delivered vote |
| ReplicaSystem.NewViewInv | bft_consensus.py:526-571 | so does a delivered NewView |
| ReplicaSystem.StepInv | bft_consensus.py:235-571 | every step, honest or Byzantine, keeps the system invariant, and votes and commits only grow |
| Agreement.RunInv | bft_consensus.py:235-571 | the invariant holds in every state of every run |
| Agreement.CommittedListsAgree | bft_consensus.py:308-477 | committed lists of any two honest replicas at any two moments of a run are prefixes of one another |
| Agreement.CommittedListShape | bft_consensus.py:424-435 | a committed list starts at genesis, each entry is the parent of the next, views rise, nothing is listed twice |
| Agreement.CommitIsIrrevocable | bft_consensus.py:391-422 | what an honest replica committed begins the history of every block certified at that view or later, then and ever after |
| Agreement.CertificationFacts | bft_consensus.py:168-183 | in every reachable state: one certified block per view, its own view, its parent certified at a strictly smaller one |
| Agreement.HonestReplicaFacts | bft_consensus.py:391-409 | lock and highest certificate of an honest replica never differ |
| Agreement.HonestVotesOnce | bft_consensus.py:313-317 | no honest validator votes for two blocks in one view, however many others are Byzantine |
| Agreement.HonestMessagesDeliverable | bft_consensus.py:274-282 | the network model admits everything honest replicas send, and receivers' checks pass |
| Agreement.GenesisCertificateView | bft_consensus.py:343-344 | voting for a block with an unverified genesis certificate leaves a justified lock if and only if its view is not above the lock's |
| Agreement.GenesisCertificateAtPositiveView | bft_consensus.py:343-344 | a first proposal that moves the lock to a view nobody has voted in |
| Accountability.ChainIsHistory | bft_accountability.py:200-211 | a chain that passes the check is the history of its tip |
| Accountability.VerifiedConflictMeansTooManyFaults | bft_accountability.py:234-251 | in every run with any number of Byzantine validators, conflict evidence verifies only if more than f are Byzantine |
| Accountability.CulpritsExceedBound | bft_accountability.py:253-257 | verified conflict evidence names at least f+1 validators of the committee |
| Accountability.MonitorExact | bft_accountability.py:279-310 | after any vote stream the caught set is exactly the equivocators, and all stored evidence verifies |
| Accountability.CaughtIndependentOfOrder | bft_accountability.py:279-310 | order and repetition of votes do not change who is caught |
| Accountability.HonestNeverCaught | bft_accountability.py:92-122 | no honest replica of any run is ever caught, however many others are Byzantine |
| AccountabilityMonitorObject.AccountabilityMonitor.Observe | bft_accountability.py:279-310 | new state and result of one observed vote |
| AccountabilityMonitorObject.AccountabilityMonitor.SubmitConflictingCommits | bft_accountability.py:312-329 | records exactly the culprits not on record yet, and names those; nothing for evidence that does not verify |
| EvidenceContracts.WitnessIff | bft_accountability.py:154-182 | a witness verifies if and only if its certificates hold for its blocks, in their views, and each block follows the one before in the next view with a certificate for it |
| EvidenceContracts.ProofCommits | bft_accountability.py:138-145 | a witness that verifies makes every replica that stores its blocks commit the first of them |
| EvidenceContracts.CommitIsProvable | bft_accountability.py:138-145 | whatever the commit rule of an honest replica of a run commits, genesis aside, has a witness made of its own blocks and that certificate |
| EvidenceContracts.HistoryIff | bft_accountability.py:200-211 | a chain passes the check if and only if it is the whole history of its tip, from genesis on |
| EvidenceContracts.ConflictIff | bft_accountability.py:234-251 | evidence verifies if and only if both blocks are proved committed, the chains are their histories from genesis, and neither block is an ancestor of the other |
| EvidenceContracts.EquivocationIff | bft_accountability.py:92-122 | evidence of equivocation verifies if and only if it holds genuine votes of the accused for two blocks in its view |
| EvidenceContracts.ReportIff | bft_accountability.py:279-310 | a vote is reported if and only if it is the one that makes its voter guilty; the report proves it with this vote and the first the voter gave in the view |
| EvidenceContracts.RecordIff | bft_accountability.py:279-310 | on record are exactly the validators that gave genuine votes for two blocks in one view |
| CulpritGuilt.SignaturesConflictIffSameView | bft_accountability.py:253-257 | the two signatures a culprit gave for the committed blocks are an equivocation if and only if the blocks have the same view |
| CulpritGuilt.CaughtIffSameView | bft_accountability.py:260-310 | a monitor shown those signatures catches the culprit if and only if the blocks have the same view |
| CulpritGuilt.ProvesGuiltIffSameView | bft_accountability.py:260-268 | over all runs with any number of Byzantine validators, genuine evidence about committed blocks of two given views names Byzantine validators only if and only if the views are equal |
| CulpritGuilt.BlamelessNamed | bft_accountability.py:260-268 | for every accepted committee and any two different views, a reached state whose genuine evidence names an honest validator |
| CulpritGuilt.NamesEnoughIffExactSize | bft_accountability.py:222-226 | verified evidence always names more than f validators if and only if n = 3f+1 |
| BlockSync.ServeSync | bft_node.py:363-383 | the walk serves the stored history behind the frontier, oldest first |
| BlockSync.ServedExactly | bft_node.py:363-383 | what is served is the unbroken line of stored blocks up to the tip, back to the frontier, genesis, an unknown block or the limit |
| BlockSync.RunImportable | bft_consensus.py:321-348 | in every reachable state each stored block has its parent stored and passes the import checks |
| BlockSync.ImportServed | bft_node.py:306-310 | importing a served chain brings in its tip when the frontier is known or off the branch |
| BlockSync.ImportKeepsVotes | bft_consensus.py:355-376 | importing never votes, never moves the view, never undoes a commit or lowers the lock |
| BlockSync.SyncCatchesUpIff | bft_node.py:271-310 | a sync between honest replicas of a run catches up if and only if the requester has its own frontier block or it is off the served branch |
| BlockSync.WalkExact | bft_consensus.py:284-297 | on a stored block the bounded walk finds exactly the ancestors within its step bound |
| SyncGap.SyncCanFail | bft_node.py:271-310 | for every accepted committee a run without Byzantine validators in which a sync of a missing block brings in nothing |
| HonestRounds.InitialReady | bft_finality.py:69-74 | a new all-honest committee is ready for view 1 on genesis |
| HonestRounds.HonestView | bft_finality.py:76-87 | a view run on a ready committee leaves it ready for the next, on top of the proposed block |
| HonestRounds.HonestViewCommits | bft_finality.py:76-87 | no commit is undone, and from view 3 on every replica commits the block two below the tip |
| HonestRuns.EveryProposalCommits | bft_finality.py:89-112 | in a run of honest views of any length, every proposal is committed by every replica once three more views have run, and stays committed |
| HonestRuns.RunStaysReady | bft_finality.py:76-87 | after any number of honest views the committee is ready for the next |
| FinalityGadget.BftFinalityGadget.constructor | bft_finality.py:69-74 | a new gadget has a ready committee of distinct replica objects |
| FinalityGadget.BftFinalityGadget.RunHonestView | bft_finality.py:76-87 | driving the replica objects through one view is one more honest view of the run |
| FinalityGadget.BftFinalityGadget.DriveFiveViews | bft_finality.py:102-107 | the first view proposes the payload and four propose heartbeats, after which every replica has committed the block of the first |
| FinalityGadget.BftFinalityGadget.FinalizeHeight | bft_finality.py:89-112 | for every height on the chain, call after call: its hash is returned and recorded, and its checkpoint, proposed in the first of five views, is committed by everyone; a height off the chain changes nothing |
| Rounding.RoundDiv | blockchain.py:784 | rounding is off by at most one half |
| Rounding.NearestRoot | blockchain.py:833 | the whole number nearest to the square root |
| FixedPoint.ComputeFixedPow | blockchain.py:268-283 | the loop computes the power by squaring that the error bound is about |
| FixedPoint.FixedPowError | blockchain.py:268-283 | for every base in [0, 2^64] and every exponent e, at most the exact power and at least that minus e |
| FixedPoint.FixedPowNearlyFalls | blockchain.py:268-283 | a power of a larger exponent exceeds that of a smaller one by at most the smaller exponent |
| FixedPoint.RewardBounds | blockchain.py:285-301 | the reward stays between its floor and the base reward at every height |
| FixedPoint.RewardTracks | blockchain.py:285-301 | at every height the reward is 0.5 + 99.5 r^h coins to the nearest micro-unit, less a truncation error below six trillionths of a micro-unit per block of height |
| FixedPoint.FloorReachedIff | blockchain.py:285-301 | it is the floor exactly where the decay factor is at most a given constant |
| FixedPoint.FloorFromHeight | blockchain.py:220 | it is the floor at every height from 2^31 on |
| Merkle.ComputeMerkleRoot | blockchain.py:73-93 | the loop computes the root, all zeros for no transactions |
| Merkle.NextLayer | blockchain.py:86-92 | one round of pairing with the odd one out duplicated |
| Merkle.Level | blockchain.py:86-92 | each node is over its two entries, the last over itself when the length is odd |
| Merkle.RootBindsTransactions | blockchain.py:73-93 | equal roots mean equal transactions, for lists of one length and for lists without duplicates of any lengths |
| Merkle.EmptyRoot | blockchain.py:83-84 | the root is all zeros exactly for the empty list |
| Merkle.RootsAgreeIff | blockchain.py:73-93 | two non-empty lists of transactions share a root if and only if they complete to one list, where completing repeats the last block of every odd level |
| Merkle.CompleteExtends | blockchain.py:86-92 | completing a list only appends entries that are on it |
| Merkle.SameRootRepeats | blockchain.py:73-93 | of two lists with one root one begins the other, and what follows repeats entries of it |
| Merkle.RepeatedLastKeepsRoot | blockchain.py:87-88 | repeating the last of an odd number of three or more transactions keeps the root |
| MedianTime.MedianAtLeast | blockchain.py:1203-1213 | the median is at least x exactly when at most half the window is below x |
| MedianTime.MedianNeverFalls | blockchain.py:1215-1219 | a block that passes the timestamp rule never lowers the median |
| LedgerEffects.PaymentEffect | blockchain.py:932-952 | the change of every balance by a payment, an asset transfer or a coinbase, and the keys debited |
| LedgerEffects.DepositEffect | blockchain.py:772-794 | the change of every balance and supply by a deposit; what it mints is amount S / P to the nearest micro-unit, ties to even |
| LedgerEffects.WithdrawEffect | blockchain.py:795-813 | the same for a withdrawal; what it pays is amount P / S to the nearest micro-unit, ties to even |
| LedgerEffects.WithdrawPays | blockchain.py:795-813 | the holder gains r less the fee and the pool loses r, where r is off from amount P / S by at most one half |
| LedgerEffects.AddEffect | blockchain.py:814-858 | the same for adding liquidity; what it mints is the smaller proportion to the nearest micro-unit, or the nearest root into an empty pool |
| LedgerEffects.RemoveEffect | blockchain.py:901-931 | the same for removing liquidity; each side pays its reserve times the part of the shares handed in |
| LedgerEffects.SwapEffect | blockchain.py:859-900 | the same for a swap; it pays 997 dx y / (1000 x + 997 dx) to the nearest micro-unit and is refused if and only if that is below the minimum asked for |
| LedgerEffects.ApplyAllIff | blockchain.py:954-955 | a list of transactions goes through if and only if each can be applied to what the earlier ones left |
| LedgerTotals.ApplyConserves | blockchain.py:752-952 | every transaction keeps balances and supply of every other asset in step, and changes total OCN by its coinbase amount or fee alone |
| LedgerTotals.BlockConserves | blockchain.py:1337-1338 | so does a block |
| LedgerSolvency.RedeemedWithinPool | blockchain.py:795-813 | redeeming at most the supply pays at most the pool |
| LedgerSolvency.HoldingAtMostSupply | blockchain.py:795-813 | on solvent, balanced books nobody holds more than the supply |
| LedgerSolvency.SuppliesNonNegative | blockchain.py:752-952 | on solvent, balanced books no supply is negative |
| LedgerSolvency.OpKeepsSolvent | blockchain.py:1325-1331 | a checked op keeps every protected balance non-negative, the stake pool's unlisted debit included |
| LedgerDebits.DebitsAreListed | blockchain.py:752-952 | a user's valid transaction lowers only balances it lists as debited and, in a stake withdrawal, the pool's OCN; it changes only balances of its sender, its recipient and its pool |
| BlockIndependence.OpAgrees | blockchain.py:1315-1338 | an op that reads no paid pool does the same on the scratch copy and on the real books, refusals and debits included |
| BlockIndependence.CheckingOpsIsSound | blockchain.py:1315-1338 | on independent blocks the second pass completes and agrees with the scratch copy, and it leaves the books solvent if and only if no pool is overdrawn by the payments that name it |
| BlockIndependence.NoClawbackCovers | blockchain.py:1280-1283 | it is not when no coinbase takes from a pool |
| ChainExamples.NegativeCoinbaseAccepted | blockchain.py:1280-1283 | only the coinbase sum is checked: every healthy node, at every height, accepts a certain solved, independent block that leaves the stake pool at -1 |
| ChainExamples.DependentDepositAccepted | blockchain.py:1315-1338 | a node reached by a run and a dependent block it accepts, after which a stOCN balance is negative |
| ChainExamples.DependentSwapRaises | blockchain.py:877-885 | a node reached by a run and a dependent block that raises after it was appended, in the validation from scratch as well |
| ChainExamples.RaisedRunBreaksCoins | blockchain.py:1332-1338 | a run of a new node after which OCN do not add up, because a block raised |
| ChainExamples.FeeOrderRefused | blockchain.py:1062-1090 | a fresh mempool whose transactions pass in the order of arrival, and no template of which is admissible |
| PoolBounds.SwapBound | blockchain.py:868-876 | a swap pays at most the reserve, and the product of the reserves falls by at most the rounding half-unit |
| PoolBounds.ExactSwapKeepsProduct | blockchain.py:868-876 | without rounding up it never falls |
| PoolBounds.SwapReserves | blockchain.py:859-900 | the same on the books, with the minimum output honoured |
| PoolBounds.StakeRoundTrip | blockchain.py:626-639 | depositing a and redeeming the minted shares gains at most P/(2S) + 1/2 |
| PoolBounds.StakeRoundTripOnBooks | blockchain.py:772-813 | the same on the books, fees aside, with stOCN and its supply restored |
| PoolBounds.LiquidityRoundTrip | blockchain.py:814-858 | adding liquidity and removing the minted shares gains at most P/(2S) + 1/2 on each side |
| PoolBounds.LiquidityRoundTripOnBooks | blockchain.py:814-931 | the same on the books as a bound on what each reserve loses, with the share supply restored |
| ChainRules.JudgeAppend | blockchain.py:1394-1463 | appending to a valid chain is judged by the new block alone |
| ChainRules.JudgeStops | blockchain.py:1394-1463 | a verdict on a prefix that is not "valid" is the verdict on the chain |
| ChainRules.JudgeReplays | blockchain.py:957-969 | the validator's running books are the replay of the chain |
| ChainRules.ValidLater | blockchain.py:1215-1217 | a valid chain stays valid as the clock advances |
| ChainNode.Unmined | blockchain.py:1339-1343 | exactly the pending transactions that the block does not contain remain |
| ChainNode.AcceptIffScratchValid | blockchain.py:1238-1347 | on a valid chain with the index in sync, accepting a block is validity of the longer chain from scratch plus the current target of its kind; and it raises after appending exactly when that validation raises on a block at the current target whose transactions are all valid |
| ChainNode.AcceptKeepsSync | blockchain.py:1332-1338 | after an accepted block the index is the replay of the whole chain, and the chain valid |
| ChainNode.AdoptKeepsSync | blockchain.py:1512-1547 | so it is after every offered chain, adopted or not |
| ChainNode.NewNodeInSync | blockchain.py:377-403 | a new node starts valid and in sync on the premine |
| ChainNode.AcceptHistory | blockchain.py:1332-1338 | accepting a block, even one that raises, keeps history and finalized blocks |
| ChainNode.AdoptHistory | blockchain.py:1512-1530 | replacing the chain never shortens it, changes nothing up to the checkpoint and drops no finalized block |
| ChainNode.MarkHistory | blockchain.py:1481-1493 | a mark is recorded exactly for a block the chain holds |
| BlockRules.OpsPassIff | blockchain.py:1315-1331 | the op check passes if and only if there are books along which each op is well formed, can be applied and leaves nothing it debits below zero |
| BlockRules.MedianIff | blockchain.py:1203-1219 | a timestamp is above the median if and only if more than half of the last eleven are earlier |
| BlockRules.RewardIff | blockchain.py:1280-1283 | the coinbases pass if and only if there is one and they sum to the subsidy, a tenth of the reward when staked, and the fees, within one micro-unit |
| BlockRules.HonouredIff | blockchain.py:1284-1300 | the replay checks pass if and only if no signed message stands twice in the block or in it and an earlier block |
| BlockRules.ValidIff | blockchain.py:1350-1463 | validation from scratch accepts a chain with these books if and only if each block meets every rule on the books the earlier ones leave |
| BlockRules.RaisesIff | blockchain.py:1458-1459 | it raises if and only if a block that is otherwise in order, on blocks that hold, contains transactions that cannot all be applied |
| BlockRules.AcceptExactly | blockchain.py:1238-1347 | a block is accepted if and only if it meets every rule on the node's chain and books, at the current target of its kind, and its transactions can be applied; and the chain, books, mempool and targets afterwards on every path |
| BlockRules.AdoptExactly | blockchain.py:1512-1547 | a chain is adopted if and only if it is strictly longer, valid from scratch, has the same hash at every place up to max(0, length - 20) and contains every finalized block; and chain, books, targets and mempool afterwards, on every path |
| ChainFacts.ValidChainAuthorised | transaction.py:96-134 | on a valid chain every transaction but a coinbase is signed by the user who sends it, who pays at least 10_000 micro-units |
| ChainFacts.AcceptedAuthorised | transaction.py:96-134 | so in every accepted block |
| ChainFacts.UnsignedRefused | blockchain.py:1301-1303 | a block with an unsigned payment anywhere is refused |
| ChainFacts.NobodyRobbed | blockchain.py:1350-1463 | on a valid chain no user's holding of any asset falls in a block without a transaction that user signed, coinbase recipients aside |
| ChainFacts.NobodyRobbedByAccepted | blockchain.py:1238-1347 | nor in an accepted block |
| ChainFacts.ValidChainProduced | blockchain.py:1403-1412 | on a valid chain every block has its work, or its staker holds at least one coin on the replay of the earlier blocks and the kernel is below target times the whole coins |
| ChainFacts.AcceptedProduced | blockchain.py:1221-1236 | so on the node's books for an accepted block |
| ChainFacts.NoStakeNoBlock | blockchain.py:1221-1236 | whoever holds less than one coin produces no staked block |
| ChainFacts.MinerIsPaid | blockchain.py:1062-1090 | an accepted template makes its miner richer by at least the reward and all included fees, unless the miner signed an included transaction or a further coinbase names the miner |
| ChainRuns.HistoryIsPermanent | blockchain.py:1465-1545 | from any moment of any run on: length never falls, blocks at or below the checkpoint keep their hash, finalized blocks stay |
| KeptBlocks.SameHashSameBlock | blockchain.py:73-93 | blocks of two valid chains with one hash carry the same transactions up to repeated coinbases |
| KeptBlocks.HistoryKeepsTransactions | blockchain.py:1465-1545 | so blocks at or below the checkpoint keep their transactions, up to repeated coinbases |
| KeptBlocks.RepeatUnnoticedIff | blockchain.py:1280-1297 | a block that repeats its last transaction keeps its hash, and meets the rules if and only if that is a coinbase within the reward tolerance |
| ChainRuns.RunInSyncIff | blockchain.py:954-969 | over every run from a node in sync, the chain is valid and the index its replay if and only if no block raised after being appended, or a chain was adopted since |
| ChainRuns.AssetsAddUp | blockchain.py:752-952 | over every run, raised blocks included, every asset other than OCN adds up to its supply |
| ChainRuns.SupplyOfValidChain | blockchain.py:1417-1420 | on a valid chain each asset adds up to its supply, and OCN to premine plus subsidies within one micro-unit a block |
| ChainRuns.SupplyAfterRun | blockchain.py:1280-1283 | after every run of a new node every other asset adds up, and OCN as well, with an upper bound per block, unless a block raised and no chain was adopted since |
| ChainRuns.IndexIsPosition | blockchain.py:1398-1399 | heights of a valid chain are positions |
| ChainRuns.SubsidiesBounded | blockchain.py:285-301 | at most a hundred coins a block are created |
| ChainRuns.GenesisTransactions | blockchain.py:397-403 | the genesis hash fixes its one transaction |
| ChainRuns.SignedOnlyOnce | blockchain.py:1426-1431 | a signed transaction occurs once in the whole of a valid chain |
| ChainRuns.MedianMonotone | blockchain.py:1203-1219 | along every valid chain the median never goes back |
| ChainRuns.OrderlyChainSolvent | blockchain.py:1440-1463 | a valid chain of orderly blocks leaves every protected balance non-negative |
| ChainRuns.RunStaysHealthy | blockchain.py:1238-1347 | over every run with orderly blocks no step raises after appending, and the books stay in sync, balanced and solvent |
| ChainRuns.NewNodeHealthy | blockchain.py:377-403 | a new node can start such a run |
| BlockTemplate.CandidateAdmissibleIff | blockchain.py:1062-1090 | a template is admissible if and only if it is solved in time, what it includes is valid, unrepeated, unconfirmed and passes the op check, and coinbases among it cancel out |
| BlockTemplate.SelectedTemplateIff | blockchain.py:1062-1090 | for a fresh mempool the fee-ordered selection gives an admissible template if and only if it is solved in time, its ops are active and pass in that order, and coinbases cancel out |
| BlockTemplate.ByFeeSorts | blockchain.py:1080 | the selection order has falling fees and the same transactions |
| BlockTemplate.SelectionExactly | blockchain.py:1080 | as many pending transactions as fit are chosen, by falling fee and then by arrival, before all that are left out |
| BlockTemplate.AcceptKeepsPendingFresh | blockchain.py:1339-1343 | an accepted block keeps the mempool fresh |
| BlockTemplate.MinedBlockAccepted | blockchain.py:1140-1150 | on a healthy node a solved, independent template of includable signed transactions is accepted and leaves the node healthy |
| BlockchainObject.Blockchain.constructor | blockchain.py:377-403 | the new object is the new node |
| BlockchainObject.Blockchain.ApplyTransactions | blockchain.py:954-955 | applies in place, and reports a refused swap with whatever was applied before it |
| BlockchainObject.Blockchain.RebuildBalanceIndex | blockchain.py:957-969 | the index is the replay of the chain |
| BlockchainObject.Blockchain.CheckOps | blockchain.py:1315-1331 | the loop over the scratch copy decides the op check |
| BlockchainObject.Blockchain.AcceptBlock | blockchain.py:1238-1347 | new state and result of a submitted block on every path |
| BlockchainObject.Blockchain.BooksOf | blockchain.py:989-993 | replaying an explicit chain |
| BlockchainObject.Blockchain.IsChainValid | blockchain.py:1350-1463 | the loop gives the verdict on the whole candidate |
| BlockchainObject.Blockchain.DivergesFromCheckpoint | blockchain.py:1465-1479 | the loop finds a difference at or before the checkpoint exactly when there is one |
| BlockchainObject.Blockchain.MarkBftFinalized | blockchain.py:1481-1493 | new state and result of a mark |
| BlockchainObject.Blockchain.ConflictsWithBftFinality | blockchain.py:1495-1510 | true exactly when a finalized block would be dropped or rewritten |
| BlockchainObject.Blockchain.ReplaceChain | blockchain.py:1512-1547 | new state and result of an offered chain on every path |

## Left out

- IEEE floats, NaN and infinity: amounts are whole micro-units and rationals are exact, so neither float rounding noise nor
  amounts finer than 10^-6 are modelled.
- CheckingOpsIsSound: independence is sufficient, and shown to be needed by examples; it is not the weakest condition, since a
  dependent payment can be too small to change any rounded result.
- SupplyAfterRun: for OCN, says nothing of a node that still holds a block that raised after being appended; such a node's OCN
  total depends on the order of that block's transactions (RaisedRunBreaksCoins gives one that does not add up).
- Retargeting arithmetic, and equality of targets between a node that grew a chain and one that adopted it: the two rules are
  parameters.
- Mempool admission and eviction, pool and staked templates, and `get_balance` with pending transactions, which replays pool ops on empty
  state.
- Non-negative OCN of ordinary accounts: the source does not enforce it in blocks.
- Ops of malformed shape in the unchecked first block of an offered chain: the source raises on some of them, the model moves OCN.
- BLS, ECDSA, scrypt and SHA-256: replaced by symbolic signatures and hashes, and the aggregate-check cache by a pure predicate.
- HTTP, threads, timers, rate limits, node start-up, peer choice and the re-delivery queue: input and output plumbing.
- The Byzantine network sends any block or certificate whose signatures exist; messages that no field of the model can express,
  such as undecodable bytes, are not modelled.
- `SlashingRegistry`, `bft_onchain_stake.py`, pool statistics, wallets and user interfaces: easy members or demonstrations.
