/** The Merkle root of a block's transactions, and what it binds. */
module Merkle {
  import opened LedgerTypes

  /** One round of pairing; the odd one out pairs with itself. */
  function Level(layer: seq<MerkleHash>): (r: seq<MerkleHash>)
    ensures |r| == (|layer| + 1) / 2
    ensures forall k :: 0 <= k < |r| ==>
      r[k] == Node(layer[2 * k], layer[if 2 * k + 1 < |layer| then 2 * k + 1 else 2 * k])
  {
    if layer == [] then []
    else if |layer| == 1 then [Node(layer[0], layer[0])]
    else
      var rest := Level(layer[2..]);
      [Node(layer[0], layer[1])] + rest
  }

  function RootOf(layer: seq<MerkleHash>): MerkleHash
    requires layer != []
    decreases |layer|
  {
    if |layer| == 1 then layer[0] else RootOf(Level(layer))
  }

  function Leaves(txs: seq<Tx>): (r: seq<MerkleHash>)
    ensures |r| == |txs| && forall i :: 0 <= i < |txs| ==> r[i] == Leaf(txs[i].body)
  {
    seq(|txs|, i requires 0 <= i < |txs| => Leaf(txs[i].body))
  }

  function MerkleRoot(txs: seq<Tx>): MerkleHash {
    if txs == [] then ZeroRoot else RootOf(Leaves(txs))
  }

  method ComputeMerkleRoot(txs: seq<Tx>) returns (root: MerkleHash)
    ensures root == MerkleRoot(txs)
  {
    if txs == [] {
      return ZeroRoot;
    }
    var layer := Leaves(txs);
    while |layer| > 1
      invariant layer != [] && RootOf(layer) == MerkleRoot(txs)
      decreases |layer|
    {
      layer := NextLayer(layer);
    }
    return layer[0];
  }

  method NextLayer(layer: seq<MerkleHash>) returns (next: seq<MerkleHash>)
    ensures next == Level(layer)
  {
    var padded := if |layer| % 2 == 1 then layer + [layer[|layer| - 1]] else layer;
    next := [];
    var i := 0;
    while i < |padded|
      invariant 0 <= i <= |padded| && i == 2 * |next|
      invariant forall k :: 0 <= k < |next| ==> next[k] == Node(padded[2 * k], padded[2 * k + 1])
    {
      next := next + [Node(padded[i], padded[i + 1])];
      i := i + 2;
    }
  }

  // --- Binding ---

  function Height(h: MerkleHash): nat {
    match h
    case Node(left, _) => 1 + Height(left)
    case _ => 0
  }

  ghost predicate Uniform(layer: seq<MerkleHash>, height: nat) {
    forall i :: 0 <= i < |layer| ==> Height(layer[i]) == height
  }

  ghost predicate Distinct<T>(s: seq<T>) {
    forall i, j :: 0 <= i < j < |s| ==> s[i] != s[j]
  }

  lemma {:induction false} RootHeight(layer: seq<MerkleHash>, height: nat)
    requires layer != [] && Uniform(layer, height)
    ensures Height(RootOf(layer)) >= height
    ensures |layer| > 1 ==> Height(RootOf(layer)) > height
    decreases |layer|
  {
    if |layer| > 1 {
      RootHeight(Level(layer), height + 1);
    }
  }

  lemma LevelInjective(x: seq<MerkleHash>, y: seq<MerkleHash>)
    requires |x| == |y| && Level(x) == Level(y)
    ensures x == y
  {
    forall i | 0 <= i < |x| ensures x[i] == y[i] {
      var k := i / 2;
      assert Level(x)[k] == Level(y)[k];
      assert i == 2 * k || i == 2 * k + 1;
    }
  }

  lemma LevelDistinct(x: seq<MerkleHash>)
    requires Distinct(x)
    ensures Distinct(Level(x))
  {
  }

  lemma OddLevel(x: seq<MerkleHash>, k: nat)
    requires |x| == 2 * k + 1
    ensures |Level(x)| == k + 1 && Level(x)[k] == Node(x[2 * k], x[2 * k])
  {
  }

  lemma EvenLevel(x: seq<MerkleHash>, k: nat)
    requires |x| == 2 * k + 2
    ensures |Level(x)| == k + 1 && Level(x)[k] == Node(x[2 * k], x[2 * k + 1])
  {
  }

  /** Without duplicates, the last pair of a level shows whether the length below was odd. */
  lemma OddNotEven(x: seq<MerkleHash>, y: seq<MerkleHash>, k: nat)
    requires |x| == 2 * k + 1 && |y| == 2 * k + 2 && y[2 * k] != y[2 * k + 1]
    ensures Level(x) != Level(y)
  {
    OddLevel(x, k);
    EvenLevel(y, k);
  }

  lemma LengthFromLevel(x: seq<MerkleHash>) returns (k: nat, odd: bool)
    requires x != []
    ensures |Level(x)| == k + 1 && |x| == if odd then 2 * k + 1 else 2 * k + 2
  {
    k, odd := (|x| - 1) / 2, |x| % 2 == 1;
  }

  /** Two lists without duplicates whose next levels agree have the same length. */
  lemma LevelLength(x: seq<MerkleHash>, y: seq<MerkleHash>)
    requires x != [] && y != [] && Level(x) == Level(y) && Distinct(x) && Distinct(y)
    ensures |x| == |y|
  {
    var k, odd := LengthFromLevel(x);
    var j, other := LengthFromLevel(y);
    assert k == j;
    if odd && !other {
      OddNotEven(x, y, k);
    } else if !odd && other {
      OddNotEven(y, x, k);
    }
  }

  lemma {:induction false} EqualLengthRoots(x: seq<MerkleHash>, y: seq<MerkleHash>)
    requires x != [] && |x| == |y| && RootOf(x) == RootOf(y)
    ensures x == y
    decreases |x|
  {
    if |x| > 1 {
      EqualLengthRoots(Level(x), Level(y));
      LevelInjective(x, y);
    }
  }

  lemma {:induction false} DistinctRoots(x: seq<MerkleHash>, y: seq<MerkleHash>, height: nat)
    requires x != [] && y != [] && Uniform(x, height) && Uniform(y, height) && Distinct(x) && Distinct(y)
    requires RootOf(x) == RootOf(y)
    ensures x == y
    decreases |x| + |y|
  {
    RootHeight(x, height);
    RootHeight(y, height);
    if |x| > 1 {
      LevelDistinct(x);
      LevelDistinct(y);
      DistinctRoots(Level(x), Level(y), height + 1);
      LevelLength(x, y);
      LevelInjective(x, y);
    }
  }

  function Bodies(txs: seq<Tx>): (r: seq<TxBody>)
    ensures |r| == |txs| && forall i :: 0 <= i < |txs| ==> r[i] == txs[i].body
  {
    seq(|txs|, i requires 0 <= i < |txs| => txs[i].body)
  }

  lemma LeavesBodies(a: seq<Tx>, b: seq<Tx>)
    requires Leaves(a) == Leaves(b)
    ensures Bodies(a) == Bodies(b)
  {
    assert |a| == |Leaves(a)| == |b|;
    forall i | 0 <= i < |a| ensures a[i].body == b[i].body {
      assert Leaves(a)[i] == Leaves(b)[i];
    }
  }

  /** A root determines the transactions: among lists of one length, and among lists without duplicates. */
  lemma RootBindsTransactions(a: seq<Tx>, b: seq<Tx>)
    requires MerkleRoot(a) == MerkleRoot(b)
    requires |a| == |b| || (Distinct(Bodies(a)) && Distinct(Bodies(b)))
    ensures Bodies(a) == Bodies(b)
  {
    var x, y := Leaves(a), Leaves(b);
    if a != [] {
      RootHeight(x, 0);
    }
    if b != [] {
      RootHeight(y, 0);
    }
    if a != [] && b != [] {
      if |a| == |b| {
        EqualLengthRoots(x, y);
      } else {
        LeavesDistinct(a);
        LeavesDistinct(b);
        DistinctRoots(x, y, 0);
      }
      LeavesBodies(a, b);
    } else {
      EmptyRoot(a);
      EmptyRoot(b);
    }
  }

  lemma LeavesDistinct(txs: seq<Tx>)
    requires Distinct(Bodies(txs))
    ensures Distinct(Leaves(txs))
  {
    forall i, j | 0 <= i < j < |txs| ensures Leaves(txs)[i] != Leaves(txs)[j] {
      assert Bodies(txs)[i] != Bodies(txs)[j];
    }
  }

  lemma {:induction false} RootNotZero(layer: seq<MerkleHash>)
    requires layer != [] && forall i :: 0 <= i < |layer| ==> !layer[i].ZeroRoot?
    ensures !RootOf(layer).ZeroRoot?
    decreases |layer|
  {
    if |layer| > 1 {
      RootNotZero(Level(layer));
    }
  }

  lemma EmptyRoot(txs: seq<Tx>)
    ensures MerkleRoot(txs) == ZeroRoot <==> txs == []
  {
    if txs != [] {
      RootNotZero(Leaves(txs));
    }
  }

  lemma {:induction false} LevelRepeatedLast(layer: seq<MerkleHash>)
    requires |layer| % 2 == 1
    ensures Level(layer + [layer[|layer| - 1]]) == Level(layer)
  {
    var longer := layer + [layer[|layer| - 1]];
    if |layer| == 1 {
      assert longer[2..] == [];
    } else {
      LevelRepeatedLast(layer[2..]);
      assert longer[2..] == layer[2..] + [layer[|layer| - 1]];
    }
  }

  lemma LeavesAppend(txs: seq<Tx>, tx: Tx)
    ensures Leaves(txs + [tx]) == Leaves(txs) + [Leaf(tx.body)]
  {
  }

  /** A family of lists that share a root: repeating the last of an odd number of three or more transactions. */
  lemma RepeatedLastKeepsRoot(txs: seq<Tx>)
    requires |txs| >= 3 && |txs| % 2 == 1
    ensures MerkleRoot(txs + [txs[|txs| - 1]]) == MerkleRoot(txs)
  {
    LeavesAppend(txs, txs[|txs| - 1]);
    LevelRepeatedLast(Leaves(txs));
  }

  // --- Exactly which lists share a root ---

  /** One round of pairing on blocks of entries: the odd block out is taken twice. */
  function PairUp<T>(blocks: seq<seq<T>>): (r: seq<seq<T>>)
    ensures |r| == (|blocks| + 1) / 2
  {
    if blocks == [] then []
    else if |blocks| == 1 then [blocks[0] + blocks[0]]
    else [blocks[0] + blocks[1]] + PairUp(blocks[2..])
  }

  function Fold<T>(blocks: seq<seq<T>>): seq<T>
    requires blocks != []
    decreases |blocks|
  {
    if |blocks| == 1 then blocks[0] else Fold(PairUp(blocks))
  }

  function Singles<T>(list: seq<T>): (r: seq<seq<T>>)
    ensures |r| == |list| && forall i :: 0 <= i < |r| ==> r[i] == [list[i]]
  {
    seq(|list|, i requires 0 <= i < |list| => [list[i]])
  }

  /** The list filled up to a power of two the way the tree does it: at every level the last block is repeated
      when the number of blocks is odd. */
  function Complete<T>(list: seq<T>): seq<T>
    requires list != []
  {
    Fold(Singles(list))
  }

  function Under(h: MerkleHash): seq<TxBody> {
    match h
    case ZeroRoot => []
    case Leaf(body) => [body]
    case Node(left, right) => Under(left) + Under(right)
  }

  function Unders(layer: seq<MerkleHash>): (r: seq<seq<TxBody>>)
    ensures |r| == |layer| && forall i :: 0 <= i < |r| ==> r[i] == Under(layer[i])
  {
    seq(|layer|, i requires 0 <= i < |layer| => Under(layer[i]))
  }

  lemma {:induction false} UndersOfLevel(layer: seq<MerkleHash>)
    ensures Unders(Level(layer)) == PairUp(Unders(layer))
    decreases |layer|
  {
    if |layer| >= 2 {
      UndersOfLevel(layer[2..]);
      assert Unders(layer)[2..] == Unders(layer[2..]);
      assert Unders([Node(layer[0], layer[1])] + Level(layer[2..]))
        == [Under(layer[0]) + Under(layer[1])] + Unders(Level(layer[2..]));
    } else if |layer| == 1 {
      assert Unders(Level(layer)) == [Under(layer[0]) + Under(layer[0])];
    }
  }

  lemma {:induction false} UnderRoot(layer: seq<MerkleHash>)
    requires layer != []
    ensures Under(RootOf(layer)) == Fold(Unders(layer))
    decreases |layer|
  {
    if |layer| > 1 {
      UnderRoot(Level(layer));
      UndersOfLevel(layer);
    }
  }

  ghost predicate Perfect(h: MerkleHash, height: nat) {
    if height == 0 then h.Leaf? else h.Node? && Perfect(h.left, height - 1) && Perfect(h.right, height - 1)
  }

  ghost predicate AllPerfect(layer: seq<MerkleHash>, height: nat) {
    forall i :: 0 <= i < |layer| ==> Perfect(layer[i], height)
  }

  lemma LevelPerfect(layer: seq<MerkleHash>, height: nat)
    requires AllPerfect(layer, height)
    ensures AllPerfect(Level(layer), height + 1)
  {
    var next := Level(layer);
    forall k | 0 <= k < |next| ensures Perfect(next[k], height + 1) {
      assert Perfect(next[k].left, height) && Perfect(next[k].right, height);
    }
  }

  lemma {:induction false} RootPerfect(layer: seq<MerkleHash>, height: nat) returns (top: nat)
    requires layer != [] && AllPerfect(layer, height)
    ensures Perfect(RootOf(layer), top)
    decreases |layer|
  {
    if |layer| == 1 {
      top := height;
    } else {
      LevelPerfect(layer, height);
      top := RootPerfect(Level(layer), height + 1);
    }
  }

  function PowerOfTwo(n: nat): nat {
    if n == 0 then 1 else 2 * PowerOfTwo(n - 1)
  }

  lemma {:induction false} UnderPerfect(h: MerkleHash, height: nat)
    requires Perfect(h, height)
    ensures |Under(h)| == PowerOfTwo(height)
    decreases height
  {
    if height > 0 {
      UnderPerfect(h.left, height - 1);
      UnderPerfect(h.right, height - 1);
    }
  }

  lemma {:induction false} PowerOrder(m: nat, n: nat)
    requires m < n
    ensures PowerOfTwo(m) < PowerOfTwo(n)
    decreases n
  {
    if m < n - 1 {
      PowerOrder(m, n - 1);
    }
    PowerPositive(n - 1);
  }

  lemma {:induction false} PowerPositive(n: nat)
    ensures PowerOfTwo(n) > 0
  {
    if n > 0 {
      PowerPositive(n - 1);
    }
  }

  /** A perfect tree is determined by its leaves. */
  lemma {:induction false} LeavesDetermine(x: MerkleHash, y: MerkleHash, height: nat)
    requires Perfect(x, height) && Perfect(y, height) && Under(x) == Under(y)
    ensures x == y
    decreases height
  {
    if height > 0 {
      UnderPerfect(x.left, height - 1);
      UnderPerfect(y.left, height - 1);
      HalvesEqual(Under(x.left), Under(x.right), Under(y.left), Under(y.right));
      LeavesDetermine(x.left, y.left, height - 1);
      LeavesDetermine(x.right, y.right, height - 1);
    }
  }

  lemma HalvesEqual<T>(a: seq<T>, b: seq<T>, c: seq<T>, d: seq<T>)
    requires |a| == |c| && a + b == c + d
    ensures a == c && b == d
  {
    assert a == (a + b)[..|a|] && b == (a + b)[|a|..];
    assert c == (c + d)[..|c|] && d == (c + d)[|c|..];
  }

  lemma SameLeavesSameRoot(x: MerkleHash, m: nat, y: MerkleHash, n: nat)
    requires Perfect(x, m) && Perfect(y, n) && Under(x) == Under(y)
    ensures x == y
  {
    UnderPerfect(x, m);
    UnderPerfect(y, n);
    if m < n {
      PowerOrder(m, n);
    } else if n < m {
      PowerOrder(n, m);
    }
    LeavesDetermine(x, y, m);
  }

  lemma RootLeaves(txs: seq<Tx>) returns (top: nat)
    requires txs != []
    ensures Under(MerkleRoot(txs)) == Complete(Bodies(txs)) && Perfect(MerkleRoot(txs), top)
  {
    var leaves := Leaves(txs);
    UnderRoot(leaves);
    assert Unders(leaves) == Singles(Bodies(txs));
    top := RootPerfect(leaves, 0);
  }

  /** Two non-empty lists of transactions have one root if and only if they complete to one list. */
  lemma RootsAgreeIff(a: seq<Tx>, b: seq<Tx>)
    requires a != [] && b != []
    ensures MerkleRoot(a) == MerkleRoot(b) <==> Complete(Bodies(a)) == Complete(Bodies(b))
  {
    var m := RootLeaves(a);
    var n := RootLeaves(b);
    if Complete(Bodies(a)) == Complete(Bodies(b)) {
      SameLeavesSameRoot(MerkleRoot(a), m, MerkleRoot(b), n);
    }
  }

  // --- What lists of one root have in common ---

  function Flatten<T>(blocks: seq<seq<T>>): seq<T> {
    if blocks == [] then [] else blocks[0] + Flatten(blocks[1..])
  }

  lemma {:induction false} PairUpExtends<T>(blocks: seq<seq<T>>)
    ensures Flatten(blocks) <= Flatten(PairUp(blocks))
    ensures forall x :: x in Flatten(PairUp(blocks)) ==> x in Flatten(blocks)
    decreases |blocks|
  {
    if |blocks| >= 2 {
      PairUpExtends(blocks[2..]);
      assert Flatten(blocks) == blocks[0] + (blocks[1] + Flatten(blocks[1..][1..]));
      assert blocks[1..][1..] == blocks[2..];
      assert PairUp(blocks)[1..] == PairUp(blocks[2..]);
      assert Flatten(blocks) == (blocks[0] + blocks[1]) + Flatten(blocks[2..]);
    } else if |blocks| == 1 {
      assert blocks[1..] == [] && PairUp(blocks)[1..] == [];
      assert Flatten(blocks) == blocks[0] && Flatten(PairUp(blocks)) == blocks[0] + blocks[0];
    }
  }

  lemma {:induction false} FoldExtends<T>(blocks: seq<seq<T>>)
    requires blocks != []
    ensures Flatten(blocks) <= Fold(blocks) && forall x :: x in Fold(blocks) ==> x in Flatten(blocks)
    decreases |blocks|
  {
    if |blocks| == 1 {
      assert blocks[1..] == [];
    } else {
      PairUpExtends(blocks);
      FoldExtends(PairUp(blocks));
    }
  }

  lemma {:induction false} FlattenSingles<T>(list: seq<T>)
    ensures Flatten(Singles(list)) == list
  {
    if list != [] {
      assert Singles(list)[1..] == Singles(list[1..]);
      FlattenSingles(list[1..]);
    }
  }

  /** Completing a list only appends entries that are on it. */
  lemma CompleteExtends<T>(list: seq<T>)
    requires list != []
    ensures list <= Complete(list) && forall x :: x in Complete(list) ==> x in list
  {
    FlattenSingles(list);
    FoldExtends(Singles(list));
  }

  /** Of two lists with one root one begins the other, and what follows repeats entries of the shorter one. */
  lemma SameRootRepeats(a: seq<Tx>, b: seq<Tx>)
    requires MerkleRoot(a) == MerkleRoot(b) && |a| <= |b|
    ensures Bodies(a) <= Bodies(b) && forall x :: x in Bodies(b) ==> x in Bodies(a)
  {
    EmptyRoot(a);
    EmptyRoot(b);
    if a != [] {
      RootsAgreeIff(a, b);
      CompleteExtends(Bodies(a));
      CompleteExtends(Bodies(b));
      var whole := Complete(Bodies(a));
      assert Bodies(a) == whole[..|a|] && Bodies(b) == whole[..|b|];
    }
  }
}
