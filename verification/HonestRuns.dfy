/** Any number of consecutive honest views. */
module HonestRuns {
  import opened Wrappers
  import opened HotStuffTypes
  import opened ReplicaLogic
  import opened HonestRounds

  /** What one view guarantees about commits: none is undone, and from view 3 on everyone has committed the block
      two below the tip it started from. */
  ghost predicate CommitsGrow(rs: seq<Replica>, after: seq<Replica>, tip: Hash, v: int) {
    && (forall h :: Committed(rs, h) ==> Committed(after, h))
    && (v >= 3 ==> Committed(after, Back(tip, 2)))
  }

  lemma ViewOutcome(c: Committee, rs: seq<Replica>, v: int, tip: Hash, payload: Payload, b: Block, after: seq<Replica>)
    requires Ready(c, rs, v, tip)
    requires b == ProposedBlock(c, rs, v, payload) && after == AfterView(c, rs, v, payload)
    ensures Ready(c, after, v + 1, HashOf(b)) && b.parent == tip && CommitsGrow(rs, after, tip, v)
  {
    HonestView(c, rs, v, tip, payload);
    HonestViewCommits(c, rs, v, tip, payload);
    ProposalExtendsTip(c, rs, v, tip, payload);
  }

  lemma ProposalExtendsTip(c: Committee, rs: seq<Replica>, v: int, tip: Hash, payload: Payload)
    requires Ready(c, rs, v, tip)
    ensures ProposedBlock(c, rs, v, payload).parent == tip
    ensures ProposedBlock(c, rs, v, payload).payload == payload
  {
    LeaderBlock(c, rs, v, tip, payload);
  }

  ghost predicate Linked(c: Committee, rs: seq<Replica>, v: int, payload: Payload, after: seq<Replica>, tip: Hash) {
    && Members(c, rs) && after == AfterView(c, rs, v, payload)
    && tip == HashOf(ProposedBlock(c, rs, v, payload))
  }

  lemma LinkedOutcome(c: Committee, rs: seq<Replica>, v: int, tip: Hash, payload: Payload, after: seq<Replica>, next: Hash)
    requires Ready(c, rs, v, tip) && Linked(c, rs, v, payload, after, next)
    ensures Ready(c, after, v + 1, next) && CommitsGrow(rs, after, tip, v)
    ensures Proposes(tip, payload, v, next)
  {
    LeaderBlock(c, rs, v, tip, payload);
    ViewOutcome(c, rs, v, tip, payload, ProposedBlock(c, rs, v, payload), after);
  }

  /** A run of views: the replicas and the tip after each view, and the payload it proposed. */
  datatype Trail =
    | Start(rs: seq<Replica>, tip: Hash)
    | Then(before: Trail, payload: Payload, rs: seq<Replica>, tip: Hash)

  function Views(t: Trail): nat {
    match t
    case Start(_, _) => 0
    case Then(before, _, _, _) => Views(before) + 1
  }

  /** The run up to k views ago. */
  function Ago(t: Trail, k: nat): (r: Trail)
    requires k <= Views(t)
    ensures Views(r) == Views(t) - k
  {
    if k == 0 then t else Ago(t.before, k - 1)
  }

  /** The run `first` and k more views, each of which proposes a heartbeat. */
  ghost predicate HeartbeatsAfter(first: Trail, t: Trail, view: int, k: nat) {
    if k == 0 then t == first
    else t.Then? && t.payload == Heartbeat(view + k) && HeartbeatsAfter(first, t.before, view, k - 1)
  }

  /** One view that proposes the payload as this tip, and then four heartbeats. */
  ghost predicate Drove(before: Trail, after: Trail, payload: Payload, view: int, tip: Hash) {
    exists rs :: HeartbeatsAfter(Then(before, payload, rs, tip), after, view, 4)
  }

  // --- The argument, for any relation between the states before and after a view ---

  type State = (int, seq<Replica>, Hash) -> bool
  type Link = (seq<Replica>, int, Payload, seq<Replica>, Hash) -> bool

  ghost predicate Steps(link: Link, v: int, t: Trail) {
    match t
    case Start(_, _) => v >= 1
    case Then(before, payload, rs, tip) => Steps(link, v, before) && link(before.rs, v + Views(before), payload, rs, tip)
  }

  ghost predicate Proposes(tip: Hash, payload: Payload, w: int, next: Hash) {
    next.HashOf? && next.block.parent == tip && next.block.payload == payload && next.block.view == w
  }

  ghost predicate Progresses(ready: State, link: Link) {
    forall w: int, rs: seq<Replica>, tip: Hash, payload: Payload, after: seq<Replica>, next: Hash ::
      ready(w, rs, tip) && link(rs, w, payload, after, next) ==>
        ready(w + 1, after, next) && Proposes(tip, payload, w, next) && CommitsGrow(rs, after, tip, w)
  }

  lemma {:induction false} StaysReady(ready: State, link: Link, v: int, t: Trail)
    requires Progresses(ready, link) && Steps(link, v, t) && ready(v, Ago(t, Views(t)).rs, Ago(t, Views(t)).tip)
    ensures ready(v + Views(t), t.rs, t.tip)
  {
    if t.Then? {
      StaysReady(ready, link, v, t.before);
    }
  }

  lemma LastView(ready: State, link: Link, v: int, t: Trail)
    requires Progresses(ready, link) && Steps(link, v, t) && ready(v, Ago(t, Views(t)).rs, Ago(t, Views(t)).tip) && t.Then?
    ensures Proposes(t.before.tip, t.payload, v + Views(t.before), t.tip)
    ensures CommitsGrow(t.before.rs, t.rs, t.before.tip, v + Views(t.before))
  {
    StaysReady(ready, link, v, t.before);
  }

  lemma {:induction false} FirstView(link: Link, v: int, t: Trail)
    requires Steps(link, v, t)
    ensures v >= 1
  {
    if t.Then? {
      FirstView(link, v, t.before);
    }
  }

  lemma TwoBack(ready: State, link: Link, v: int, t: Trail)
    requires Progresses(ready, link) && Steps(link, v, t) && ready(v, Ago(t, Views(t)).rs, Ago(t, Views(t)).tip)
    requires Views(t) >= 2
    ensures Back(t.tip, 2) == Ago(t, 2).tip
  {
    LastView(ready, link, v, t);
    LastView(ready, link, v, t.before);
    assert Ago(t, 2) == Ago(t.before, 1) == Ago(t.before.before, 0);
    assert Back(t.tip, 2) == Back(t.before.tip, 1) == Back(t.before.before.tip, 0);
  }

  lemma {:induction false} ProposalCommits(ready: State, link: Link, v: int, t: Trail, k: nat)
    requires Progresses(ready, link) && Steps(link, v, t) && ready(v, Ago(t, Views(t)).rs, Ago(t, Views(t)).tip)
    requires 3 <= k < Views(t)
    ensures Committed(t.rs, Ago(t, k).tip)
    ensures Ago(t, k).Then? && Proposes(Ago(t, k + 1).tip, Ago(t, k).payload, v + Views(t) - k - 1, Ago(t, k).tip)
  {
    LastView(ready, link, v, t);
    FirstView(link, v, t);
    if k == 3 {
      TwoBack(ready, link, v, t.before);
      ProposalAgo(ready, link, v, t, 3);
    } else {
      ProposalCommits(ready, link, v, t.before, k - 1);
    }
  }

  lemma {:induction false} ProposalAgo(ready: State, link: Link, v: int, t: Trail, k: nat)
    requires Progresses(ready, link) && Steps(link, v, t) && ready(v, Ago(t, Views(t)).rs, Ago(t, Views(t)).tip)
    requires k < Views(t)
    ensures Ago(t, k).Then? && Proposes(Ago(t, k + 1).tip, Ago(t, k).payload, v + Views(t) - k - 1, Ago(t, k).tip)
  {
    if k == 0 {
      LastView(ready, link, v, t);
      assert Ago(t, 1) == Ago(t.before, 0);
    } else {
      ProposalAgo(ready, link, v, t.before, k - 1);
    }
  }

  // --- Honest views ---

  ghost function ReadyIn(c: Committee): State {
    (w: int, rs: seq<Replica>, tip: Hash) => Ready(c, rs, w, tip)
  }

  ghost function HonestLink(c: Committee): Link {
    (rs: seq<Replica>, w: int, payload: Payload, after: seq<Replica>, next: Hash) => Linked(c, rs, w, payload, after, next)
  }

  /** The trail starts from a ready committee and every step of it is an honest view. */
  ghost predicate HonestRun(c: Committee, v: int, t: Trail) {
    Steps(HonestLink(c), v, t) && ReadyIn(c)(v, Ago(t, Views(t)).rs, Ago(t, Views(t)).tip)
  }

  lemma ReadyMeans(c: Committee, w: int, rs: seq<Replica>, tip: Hash)
    ensures ReadyIn(c)(w, rs, tip) == Ready(c, rs, w, tip)
  {
  }

  lemma LinkMeans(c: Committee, rs: seq<Replica>, w: int, payload: Payload, after: seq<Replica>, next: Hash)
    ensures HonestLink(c)(rs, w, payload, after, next) == Linked(c, rs, w, payload, after, next)
  {
  }

  lemma OneHonestView(c: Committee, rs: seq<Replica>, w: int, tip: Hash, payload: Payload, after: seq<Replica>, next: Hash)
    requires ReadyIn(c)(w, rs, tip) && HonestLink(c)(rs, w, payload, after, next)
    ensures ReadyIn(c)(w + 1, after, next) && Proposes(tip, payload, w, next) && CommitsGrow(rs, after, tip, w)
  {
    ReadyMeans(c, w, rs, tip);
    ReadyMeans(c, w + 1, after, next);
    LinkMeans(c, rs, w, payload, after, next);
    LinkedOutcome(c, rs, w, tip, payload, after, next);
  }

  lemma HonestProgresses(c: Committee)
    ensures Progresses(ReadyIn(c), HonestLink(c))
  {
    var ready, link := ReadyIn(c), HonestLink(c);
    forall w: int, rs: seq<Replica>, tip: Hash, payload: Payload, after: seq<Replica>, next: Hash |
      ready(w, rs, tip) && link(rs, w, payload, after, next)
      ensures ready(w + 1, after, next) && Proposes(tip, payload, w, next) && CommitsGrow(rs, after, tip, w)
    {
      OneHonestView(c, rs, w, tip, payload, after, next);
    }
  }

  /** Honest progress: whatever the other views propose, the block proposed in any view is committed by every
      replica once three more views have run, and stays committed. */
  lemma EveryProposalCommits(c: Committee, v: int, t: Trail, k: nat)
    requires HonestRun(c, v, t) && 3 <= k < Views(t)
    ensures Committed(t.rs, Ago(t, k).tip)
    ensures Ago(t, k).Then? && Proposes(Ago(t, k + 1).tip, Ago(t, k).payload, v + Views(t) - k - 1, Ago(t, k).tip)
  {
    HonestProgresses(c);
    ProposalCommits(ReadyIn(c), HonestLink(c), v, t, k);
  }

  /** After any number of honest views the committee is ready for the next one. */
  lemma RunStaysReady(c: Committee, v: int, t: Trail)
    requires HonestRun(c, v, t)
    ensures ReadyIn(c)(v + Views(t), t.rs, t.tip)
  {
    HonestProgresses(c);
    StaysReady(ReadyIn(c), HonestLink(c), v, t);
  }

  /** A new committee can start a run in view 1 on genesis. */
  lemma NewCommitteeRun(c: Committee)
    requires c.Valid()
    ensures HonestRun(c, 1, Start(Initials(c), GENESIS))
  {
    InitialReady(c);
    ReadyMeans(c, 1, Initials(c), GENESIS);
  }
}
