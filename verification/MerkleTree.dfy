/** The Merkle tree of `merkle-tree/src/merkle_tree.rs`: a flat array of levels, path extraction and proof checking. */
module MerkleTree {
  import opened Prelude

  // ---------------------------------------------------------------- hashing

  function LeafInput(item: seq<byte>): seq<byte> { [0] + item }

  function NodeInput(l: Hash, r: Hash): seq<byte> { [1] + l + r }

  function LeafHash(sha: Sha, item: seq<byte>): Hash { sha(LeafInput(item)) }

  function NodeHash(sha: Sha, l: Hash, r: Hash): Hash { sha(NodeInput(l, r)) }

  lemma NodeInputInjective(l: Hash, r: Hash, l': Hash, r': Hash)
    requires NodeInput(l, r) == NodeInput(l', r')
    ensures l == l' && r == r'
  {
    assert l == NodeInput(l, r)[1..33] && r == NodeInput(l, r)[33..];
    assert l' == NodeInput(l', r')[1..33] && r' == NodeInput(l', r')[33..];
  }

  /** Two different pairs of children with the same parent collide. */
  lemma NodesCollide(sha: Sha, l: Hash, r: Hash, l': Hash, r': Hash)
    requires NodeHash(sha, l, r) == NodeHash(sha, l', r') && (l != l' || r != r')
    ensures Collide(sha, NodeInput(l, r), NodeInput(l', r'))
  {
    if NodeInput(l, r) == NodeInput(l', r') {
      NodeInputInjective(l, r, l', r');
    }
  }

  lemma PrefixesDisjoint(item: seq<byte>, l: Hash, r: Hash)
    ensures LeafInput(item)[0] == 0 && NodeInput(l, r)[0] == 1 && LeafInput(item) != NodeInput(l, r)
  {
    assert LeafInput(item)[0] != NodeInput(l, r)[0];
  }

  // ---------------------------------------------------------------- levels

  function NextLevelLen(n: nat): nat { if n == 1 then 0 else (n + 1) / 2 }

  /** The right child of parent `i` in a level of `n` nodes: the left child again when the level is odd. */
  function RightChild(n: nat, i: nat): nat { if 2 * i + 1 < n then 2 * i + 1 else 2 * i }

  function Leaves(sha: Sha, items: seq<seq<byte>>): seq<Hash> {
    seq(|items|, i requires 0 <= i < |items| => LeafHash(sha, items[i]))
  }

  function NextLevel(sha: Sha, level: seq<Hash>): (next: seq<Hash>)
    ensures |next| == NextLevelLen(|level|)
  {
    seq(NextLevelLen(|level|),
        i requires 0 <= i < NextLevelLen(|level|) =>
          NodeHash(sha, level[2 * i], level[RightChild(|level|, i)]))
  }

  /** All levels, from the given one up to the root. */
  function Levels(sha: Sha, level: seq<Hash>): seq<Hash>
    decreases |level|
  {
    if |level| <= 1 then level else level + Levels(sha, NextLevel(sha, level))
  }

  function Root(sha: Sha, level: seq<Hash>): Hash
    requires level != []
    decreases |level|
  {
    if |level| == 1 then level[0] else Root(sha, NextLevel(sha, level))
  }

  lemma {:induction false} RootIsLast(sha: Sha, level: seq<Hash>)
    requires level != []
    ensures Levels(sha, level) != []
    ensures Levels(sha, level)[|Levels(sha, level)| - 1] == Root(sha, level)
    decreases |level|
  {
    if |level| > 1 {
      RootIsLast(sha, NextLevel(sha, level));
    }
  }

  // ---------------------------------------------------------------- construction

  datatype Tree = Tree(leafCount: nat, nodes: seq<Hash>)

  ghost predicate Built(sha: Sha, t: Tree) {
    t.leafCount <= |t.nodes| && t.nodes == Levels(sha, t.nodes[..t.leafCount])
  }

  /** One pass of the outer loop of construction: push the parents of the level that starts at `prevStart`. */
  method PushLevel(sha: Sha, nodes: seq<Hash>, prevStart: nat, prevLen: nat) returns (r: seq<Hash>)
    requires prevStart + prevLen == |nodes|
    ensures r == nodes + NextLevel(sha, nodes[prevStart..])
  {
    ghost var next := NextLevel(sha, nodes[prevStart..]);
    r := nodes;
    for i := 0 to NextLevelLen(prevLen)
      invariant r == nodes + next[..i]
    {
      var prevIdx := 2 * i;
      var lsib := r[prevStart + prevIdx];
      var rsib := if prevIdx + 1 < prevLen then r[prevStart + prevIdx + 1] else r[prevStart + prevIdx];
      r := r + [NodeHash(sha, lsib, rsib)];
    }
  }

  lemma LevelsStep(sha: Sha, done: seq<Hash>, level: seq<Hash>, all: seq<Hash>)
    requires |level| > 1
    requires done + Levels(sha, level) == all
    ensures (done + level) + Levels(sha, NextLevel(sha, level)) == all
  {
  }

  method New(sha: Sha, items: seq<seq<byte>>) returns (t: Tree)
    ensures t == Tree(|items|, Levels(sha, Leaves(sha, items)))
  {
    ghost var leaves := Leaves(sha, items);
    var nodes: seq<Hash> := [];
    for i := 0 to |items|
      invariant nodes == leaves[..i]
    {
      nodes := nodes + [LeafHash(sha, items[i])];
    }
    var levelLen, levelStart := NextLevelLen(|items|), |items|;
    var prevLen: nat, prevStart: nat := |items|, 0;
    assert nodes == leaves && nodes[prevStart..] == leaves;
    while levelLen > 0
      invariant levelLen == NextLevelLen(prevLen)
      invariant prevStart + prevLen == levelStart == |nodes|
      invariant nodes[..prevStart] + Levels(sha, nodes[prevStart..]) == Levels(sha, leaves)
      decreases prevLen
    {
      ghost var before, prev := nodes[..prevStart], nodes[prevStart..];
      LevelsStep(sha, before, prev, Levels(sha, leaves));
      assert nodes == before + prev;
      nodes := PushLevel(sha, nodes, prevStart, prevLen);
      prevStart, prevLen := levelStart, levelLen;
      levelStart := levelStart + levelLen;
      levelLen := NextLevelLen(levelLen);
    }
    assert nodes == nodes[..prevStart] + nodes[prevStart..];
    t := Tree(|items|, nodes);
  }

  method GetRoot(ghost sha: Sha, t: Tree) returns (root: Option<Hash>)
    requires Built(sha, t)
    ensures root == if t.leafCount == 0 then None else Some(Root(sha, t.nodes[..t.leafCount]))
  {
    root := if t.nodes == [] then None else Some(t.nodes[|t.nodes| - 1]);
    if t.leafCount > 0 {
      RootIsLast(sha, t.nodes[..t.leafCount]);
    }
  }

  // ---------------------------------------------------------------- proofs

  /** The constructor of the source insists that exactly one sibling is present. */
  datatype ProofEntry = ProofEntry(target: Hash, left: Option<Hash>, right: Option<Hash>) {
    predicate Valid() { left.None? != right.None? }

    /** The string that checking this entry hashes for a candidate. */
    function Input(candidate: Hash): seq<byte> {
      NodeInput(if left.Some? then left.value else candidate, if right.Some? then right.value else candidate)
    }
  }

  type Proof = seq<ProofEntry>

  function Verify(sha: Sha, proof: Proof, candidate: Hash): bool {
    proof == [] ||
    var hash := sha(proof[0].Input(candidate));
    hash == proof[0].target && Verify(sha, proof[1..], hash)
  }

  /** The sibling that the parent of node `i` hashes on the left or on the right of it. */
  function LeftSibling(level: seq<Hash>, i: nat): Option<Hash>
    requires i < |level|
  {
    if i % 2 == 0 then None else Some(level[i - 1])
  }

  function RightSibling(level: seq<Hash>, i: nat): Option<Hash>
    requires i < |level|
  {
    if i % 2 == 1 then None else if i + 1 < |level| then Some(level[i + 1]) else Some(level[i])
  }

  /** One entry for every ancestor of node `i`. */
  function Path(sha: Sha, level: seq<Hash>, i: nat): Proof
    requires i < |level|
    decreases |level|
  {
    if |level| == 1 then []
    else
      var next := NextLevel(sha, level);
      [ProofEntry(next[i / 2], LeftSibling(level, i), RightSibling(level, i))] + Path(sha, next, i / 2)
  }

  /** The entries still to be pushed when `i` is reached with the siblings found one level below. */
  ghost function Pending(sha: Sha, level: seq<Hash>, i: nat, lsib: Option<Hash>, rsib: Option<Hash>): Proof
    requires i < |level|
  {
    (if lsib.Some? || rsib.Some? then [ProofEntry(level[i], lsib, rsib)] else []) + Path(sha, level, i)
  }

  method FindPath(ghost sha: Sha, t: Tree, index: nat) returns (path: Option<Proof>)
    requires Built(sha, t)
    ensures path == if index < t.leafCount then Some(Path(sha, t.nodes[..t.leafCount], index)) else None
  {
    hide Path, Pending, Levels, NextLevel;
    if index >= t.leafCount {
      return None;
    }
    ghost var all := Path(sha, t.nodes[..t.leafCount], index);
    ghost var level := t.nodes[..t.leafCount];
    var levelLen: nat, levelStart: nat := t.leafCount, 0;
    var entries: Proof := [];
    var nodeIndex: nat := index;
    var lsib: Option<Hash>, rsib: Option<Hash> := None, None;
    PendingStart(sha, level, index);
    while levelLen > 0
      invariant levelStart <= |t.nodes|
      invariant levelLen == 0 ==> entries == all
      invariant levelLen > 0 ==> |level| == levelLen && t.nodes[levelStart..] == Levels(sha, level)
      invariant levelLen > 0 ==> nodeIndex < levelLen
                                 && entries + Pending(sha, level, nodeIndex, lsib, rsib) == all
      decreases levelLen
    {
      LevelsPrefix(sha, level);
      var row := t.nodes[levelStart..levelStart + levelLen];
      assert row == t.nodes[levelStart..][..levelLen] == level;
      PendingStep(sha, entries, level, nodeIndex, lsib, rsib);
      LevelsRest(sha, level, t.nodes, levelStart);
      if lsib.Some? || rsib.Some? {
        entries := entries + [ProofEntry(row[nodeIndex], lsib, rsib)];
      }
      if nodeIndex % 2 == 0 {
        lsib := None;
        rsib := if nodeIndex + 1 < |row| then Some(row[nodeIndex + 1]) else Some(row[nodeIndex]);
      } else {
        lsib, rsib := Some(row[nodeIndex - 1]), None;
      }
      assert lsib == LeftSibling(level, nodeIndex) && rsib == RightSibling(level, nodeIndex);
      level := NextLevel(sha, level);
      nodeIndex := nodeIndex / 2;
      levelStart := levelStart + levelLen;
      levelLen := NextLevelLen(levelLen);
    }
    path := Some(entries);
  }

  lemma PendingStart(sha: Sha, level: seq<Hash>, i: nat)
    requires i < |level|
    ensures [] + Pending(sha, level, i, None, None) == Path(sha, level, i)
  {
    hide Path;
  }

  lemma PathIsPending(sha: Sha, level: seq<Hash>, i: nat)
    requires i < |level|
    ensures Path(sha, level, i) ==
            if |level| == 1 then []
            else Pending(sha, NextLevel(sha, level), i / 2, LeftSibling(level, i), RightSibling(level, i))
  {
    hide NextLevel;
  }

  /** Pushing the pending entry of one level leaves exactly what is pending on the next. */
  lemma PendingStep(sha: Sha, entries: Proof, level: seq<Hash>, i: nat, lsib: Option<Hash>, rsib: Option<Hash>)
    requires i < |level|
    ensures var all := entries + Pending(sha, level, i, lsib, rsib);
            var pushed := if lsib.Some? || rsib.Some? then entries + [ProofEntry(level[i], lsib, rsib)] else entries;
            if |level| == 1 then pushed == all
            else pushed + Pending(sha, NextLevel(sha, level), i / 2, LeftSibling(level, i), RightSibling(level, i)) == all
  {
    hide Path, Pending, NextLevel, LeftSibling, RightSibling;
    PathIsPending(sha, level, i);
    PendingSplit(sha, entries, level, i, lsib, rsib);
  }

  lemma PendingSplit(sha: Sha, entries: Proof, level: seq<Hash>, i: nat, lsib: Option<Hash>, rsib: Option<Hash>)
    requires i < |level|
    ensures entries + Pending(sha, level, i, lsib, rsib) ==
            (if lsib.Some? || rsib.Some? then entries + [ProofEntry(level[i], lsib, rsib)] else entries)
            + Path(sha, level, i)
  {
    hide Path;
    var path := Path(sha, level, i);
    if lsib.Some? || rsib.Some? {
      var e := ProofEntry(level[i], lsib, rsib);
      assert entries + ([e] + path) == entries + [e] + path;
    } else {
      assert [] + path == path;
    }
  }

  lemma LevelsPrefix(sha: Sha, level: seq<Hash>)
    ensures |level| <= |Levels(sha, level)| && Levels(sha, level)[..|level|] == level
  {
  }

  lemma LevelsRest(sha: Sha, level: seq<Hash>, nodes: seq<Hash>, start: nat)
    requires start + |level| <= |nodes| && nodes[start..] == Levels(sha, level)
    ensures |level| > 1 ==> nodes[start + |level|..] == Levels(sha, NextLevel(sha, level))
  {
    if |level| > 1 {
      assert nodes[start + |level|..] == nodes[start..][|level|..];
    }
  }

  // ---------------------------------------------------------------- completeness

  /** A node and its siblings are the children of its parent. */
  lemma SiblingsMakeParent(sha: Sha, level: seq<Hash>, i: nat, target: Hash)
    requires i < |level| && |level| >= 2
    ensures ProofEntry(target, LeftSibling(level, i), RightSibling(level, i)).Input(level[i])
         == NodeInput(level[2 * (i / 2)], level[RightChild(|level|, i / 2)])
  {
  }

  /** The path of every node verifies that node, ends in the root, and never trips the constructor's assertion. */
  lemma {:induction false} PathVerifies(sha: Sha, level: seq<Hash>, i: nat)
    requires i < |level|
    ensures Verify(sha, Path(sha, level, i), level[i])
    ensures End(Path(sha, level, i), level[i]) == Root(sha, level)
    ensures |level| >= 2 <==> Path(sha, level, i) != []
    ensures AllValid(Path(sha, level, i))
    decreases |level|
  {
    if |level| > 1 {
      var next := NextLevel(sha, level);
      var rest := Path(sha, next, i / 2);
      PathVerifies(sha, next, i / 2);
      SiblingsMakeParent(sha, level, i, next[i / 2]);
      assert Path(sha, level, i)[1..] == rest;
    }
  }

  /** What a proof ends in: its last target, or the candidate itself when it has no entries. */
  function End(proof: Proof, candidate: Hash): Hash {
    if proof == [] then candidate else proof[|proof| - 1].target
  }

  predicate AllValid(proof: Proof) {
    forall i :: 0 <= i < |proof| ==> proof[i].Valid()
  }

  /** Every item of every list has a path, and it verifies exactly as the repository's tests expect. */
  method ProveItem(sha: Sha, items: seq<seq<byte>>, i: nat) returns (path: Option<Proof>, accepted: bool)
    ensures path.Some? <==> i < |items|
    ensures accepted <==> i < |items|
    ensures 2 <= |items| && i < |items| ==>
              path.value != [] && End(path.value, DEFAULT_HASH) == Root(sha, Leaves(sha, items))
  {
    var t := New(sha, items);
    LevelsPrefix(sha, Leaves(sha, items));
    path := FindPath(sha, t, i);
    accepted := false;
    if path.Some? {
      PathVerifies(sha, Leaves(sha, items), i);
      accepted := Verify(sha, path.value, LeafHash(sha, items[i]));
    }
  }

  // ---------------------------------------------------------------- strings that were hashed

  /** `x` was hashed to make some node above `level`. */
  ghost predicate HashedAbove(sha: Sha, level: seq<Hash>, x: seq<byte>)
    decreases |level|
  {
    |level| > 1 &&
    (|| (exists j :: 0 <= j < NextLevelLen(|level|) && x == NodeInput(level[2 * j], level[RightChild(|level|, j)]))
     || HashedAbove(sha, NextLevel(sha, level), x))
  }

  /** `x` was hashed while the tree of `items` was built. */
  ghost predicate HashedByTree(sha: Sha, items: seq<seq<byte>>, x: seq<byte>) {
    || (exists i :: 0 <= i < |items| && x == LeafInput(items[i]))
    || HashedAbove(sha, Leaves(sha, items), x)
  }

  lemma {:induction false} RootHashedAbove(sha: Sha, level: seq<Hash>) returns (x: seq<byte>)
    requires |level| >= 2
    ensures HashedAbove(sha, level, x) && sha(x) == Root(sha, level)
    decreases |level|
  {
    var next := NextLevel(sha, level);
    if |next| == 1 {
      x := NodeInput(level[0], level[RightChild(|level|, 0)]);
    } else {
      x := RootHashedAbove(sha, next);
    }
  }

  /** A root is the digest of a string that was hashed while its tree was built. */
  lemma RootIsHashed(sha: Sha, items: seq<seq<byte>>) returns (x: seq<byte>)
    requires items != []
    ensures HashedByTree(sha, items, x) && sha(x) == Root(sha, Leaves(sha, items))
  {
    if |items| == 1 {
      x := LeafInput(items[0]);
    } else {
      x := RootHashedAbove(sha, Leaves(sha, items));
    }
  }

  /** `x` was hashed while the proof was checked. */
  ghost predicate HashedByProof(proof: Proof, candidate: Hash, x: seq<byte>) {
    proof != [] && (x == proof[0].Input(candidate) || HashedByProof(proof[1..], proof[0].target, x))
  }

  // ---------------------------------------------------------------- soundness of extracted paths

  /** With two or more leaves the path of leaf `i` accepts another candidate only through a collision. */
  lemma PathSound(sha: Sha, level: seq<Hash>, i: nat, c: Hash) returns (x: seq<byte>, y: seq<byte>)
    requires i < |level| && |level| >= 2
    requires Verify(sha, Path(sha, level, i), c) && c != level[i]
    ensures Collide(sha, x, y) && HashedAbove(sha, level, x) && HashedByProof(Path(sha, level, i), c, y)
  {
    var entry := Path(sha, level, i)[0];
    x, y := NodeInput(level[2 * (i / 2)], level[RightChild(|level|, i / 2)]), entry.Input(c);
    SiblingsMakeParent(sha, level, i, entry.target);
    if i % 2 == 0 {
      NodesCollide(sha, level[i], entry.right.value, c, entry.right.value);
    } else {
      NodesCollide(sha, entry.left.value, level[i], entry.left.value, c);
    }
  }

  /** The path of a single leaf is empty and accepts everything, so two leaves are needed. */
  lemma SingleLeafAcceptsAll(sha: Sha, level: seq<Hash>, i: nat)
    requires i < |level|
    ensures (forall c: Hash :: Verify(sha, Path(sha, level, i), c)) <== |level| == 1
    ensures |level| >= 2 ==> forall c: Hash ::
                  Verify(sha, Path(sha, level, i), c) <==>
                  sha(Path(sha, level, i)[0].Input(c)) == NextLevel(sha, level)[i / 2]
  {
    if |level| > 1 {
      var next := NextLevel(sha, level);
      PathVerifies(sha, next, i / 2);
      assert Path(sha, level, i)[1..] == Path(sha, next, i / 2);
    }
  }

  // ---------------------------------------------------------------- the padded list a root stands for

  function Pow2(h: nat): nat { if h == 0 then 1 else 2 * Pow2(h - 1) }

  function Height(n: nat): nat
    requires n >= 1
  {
    if n == 1 then 0 else 1 + Height((n + 1) / 2)
  }

  /** Which of `n` leaves sits at place `i` of the full tree, once every odd level repeats its last node. */
  function Slot(n: nat, i: nat): (s: nat)
    requires n >= 1
    ensures s < n
  {
    if n == 1 then 0
    else
      var s := 2 * Slot((n + 1) / 2, i / 2) + i % 2;
      if s < n then s else s - 1
  }

  /** The leaves of the full tree. */
  function Padded<T>(xs: seq<T>): (p: seq<T>)
    requires xs != []
    ensures |p| == Pow2(Height(|xs|))
  {
    seq(Pow2(Height(|xs|)), i requires 0 <= i < Pow2(Height(|xs|)) => xs[Slot(|xs|, i)])
  }

  lemma {:induction false} SlotIdentity(n: nat, i: nat)
    requires n >= 1 && i < n
    ensures Slot(n, i) == i && n <= Pow2(Height(n))
    decreases n
  {
    if n > 1 {
      SlotIdentity((n + 1) / 2, i / 2);
    }
  }

  /** A list is a prefix of its padding. */
  lemma PaddedPrefix<T>(xs: seq<T>)
    requires xs != []
    ensures |xs| <= |Padded(xs)| && Padded(xs)[..|xs|] == xs
  {
    forall i | 0 <= i < |xs| ensures Slot(|xs|, i) == i && |xs| <= Pow2(Height(|xs|)) {
      SlotIdentity(|xs|, i);
    }
    SlotIdentity(|xs|, 0);
  }

  /** Where the children of place `j` come from. */
  lemma SlotChildren(n: nat, j: nat)
    requires n >= 2 && j < Pow2(Height(NextLevelLen(n)))
    ensures 2 * j + 1 < Pow2(Height(n))
    ensures var s := Slot(NextLevelLen(n), j); Slot(n, 2 * j) == 2 * s && Slot(n, 2 * j + 1) == RightChild(n, s)
  {
    assert (2 * j) / 2 == j && (2 * j + 1) / 2 == j;
  }

  lemma PaddedAt<T>(xs: seq<T>, i: nat)
    requires xs != [] && i < Pow2(Height(|xs|))
    ensures Padded(xs)[i] == xs[Slot(|xs|, i)]
  {
  }

  lemma NextLevelAt(sha: Sha, level: seq<Hash>, s: nat)
    requires |level| >= 2 && s < NextLevelLen(|level|)
    ensures NextLevel(sha, level)[s] == NodeHash(sha, level[2 * s], level[RightChild(|level|, s)])
    ensures HashedAbove(sha, level, NodeInput(level[2 * s], level[RightChild(|level|, s)]))
  {
  }

  /** The parent at place `j` of the padded next level hashes places `2j` and `2j + 1`. */
  lemma PaddedParent(sha: Sha, level: seq<Hash>, j: nat)
    requires |level| >= 2 && j < Pow2(Height(NextLevelLen(|level|)))
    ensures 2 * j + 1 < |Padded(level)|
    ensures Padded(NextLevel(sha, level))[j] == NodeHash(sha, Padded(level)[2 * j], Padded(level)[2 * j + 1])
    ensures HashedAbove(sha, level, NodeInput(Padded(level)[2 * j], Padded(level)[2 * j + 1]))
  {
    hide Padded, Slot, Pow2, Height, NextLevel, HashedAbove, NodeHash, NodeInput;
    SlotChildren(|level|, j);
    PaddedAt(NextLevel(sha, level), j);
    PaddedAt(level, 2 * j);
    PaddedAt(level, 2 * j + 1);
    NextLevelAt(sha, level, Slot(NextLevelLen(|level|), j));
  }

  /** The full tree over a list of `2^h` leaves, by halves. */
  function FullRoot(sha: Sha, xs: seq<Hash>, h: nat): Hash
    requires |xs| == Pow2(h)
  {
    if h == 0 then xs[0]
    else NodeHash(sha, FullRoot(sha, xs[..|xs| / 2], h - 1), FullRoot(sha, xs[|xs| / 2..], h - 1))
  }

  lemma {:induction false} FullRootByLevels(sha: Sha, xs: seq<Hash>, ys: seq<Hash>, h: nat)
    requires |xs| == 2 * |ys| && |ys| == Pow2(h)
    requires forall j :: 0 <= j < |ys| ==> ys[j] == NodeHash(sha, xs[2 * j], xs[2 * j + 1])
    ensures FullRoot(sha, xs, h + 1) == FullRoot(sha, ys, h)
  {
    if h > 0 {
      var m := |ys| / 2;
      FullRootByLevels(sha, xs[..2 * m], ys[..m], h - 1);
      FullRootByLevels(sha, xs[2 * m..], ys[m..], h - 1);
    }
  }

  /** The level-by-level root is the root of the full tree over the padded list. */
  lemma {:induction false} RootIsFullRoot(sha: Sha, level: seq<Hash>)
    requires level != []
    ensures Root(sha, level) == FullRoot(sha, Padded(level), Height(|level|))
    decreases |level|
  {
    if |level| > 1 {
      var next := NextLevel(sha, level);
      RootIsFullRoot(sha, next);
      forall j | 0 <= j < |Padded(next)|
        ensures Padded(next)[j] == NodeHash(sha, Padded(level)[2 * j], Padded(level)[2 * j + 1])
      {
        PaddedParent(sha, level, j);
      }
      FullRootByLevels(sha, Padded(level), Padded(next), Height(|next|));
    }
  }

  // ---------------------------------------------------------------- binding

  /** Equal parents of different children collide. */
  lemma ParentsBind(sha: Sha, a: seq<Hash>, b: seq<Hash>, k: nat) returns (x: seq<byte>, y: seq<byte>)
    requires |a| >= 2 && |b| >= 2 && k < |Padded(a)| == |Padded(b)| && Padded(a)[k] != Padded(b)[k]
    requires k / 2 < |Padded(NextLevel(sha, a))| == |Padded(NextLevel(sha, b))|
    requires Padded(NextLevel(sha, a))[k / 2] == Padded(NextLevel(sha, b))[k / 2]
    ensures Collide(sha, x, y) && HashedAbove(sha, a, x) && HashedAbove(sha, b, y)
  {
    var j := k / 2;
    PaddedParent(sha, a, j);
    PaddedParent(sha, b, j);
    var l, r, l', r' := Padded(a)[2 * j], Padded(a)[2 * j + 1], Padded(b)[2 * j], Padded(b)[2 * j + 1];
    assert k == 2 * j || k == 2 * j + 1;
    NodesCollide(sha, l, r, l', r');
    x, y := NodeInput(l, r), NodeInput(l', r');
  }

  /** Levels of equal height with equal roots have equal paddings, or yield a collision. */
  lemma {:induction false} LevelsBind(sha: Sha, a: seq<Hash>, b: seq<Hash>) returns (x: seq<byte>, y: seq<byte>)
    requires a != [] && b != [] && Height(|a|) == Height(|b|)
    requires Root(sha, a) == Root(sha, b) && Padded(a) != Padded(b)
    ensures Collide(sha, x, y) && HashedAbove(sha, a, x) && HashedAbove(sha, b, y)
    decreases |a|
  {
    var k :| 0 <= k < |Padded(a)| && Padded(a)[k] != Padded(b)[k];
    if |a| == 1 {
      assert false;
    } else {
      var a', b' := NextLevel(sha, a), NextLevel(sha, b);
      if Padded(a') == Padded(b') {
        x, y := ParentsBind(sha, a, b, k);
      } else {
        x, y := LevelsBind(sha, a', b');
      }
    }
  }

  /** The root of a tree is never the root of a strictly taller one, unless a leaf collides with a node. */
  lemma {:induction false} HeightsBind(sha: Sha, items: seq<seq<byte>>, b: seq<Hash>)
    returns (x: seq<byte>, y: seq<byte>)
    requires items != [] && b != [] && Height(|items|) < Height(|b|)
    requires Root(sha, Leaves(sha, items)) == Root(sha, b)
    ensures Collide(sha, x, y) && HashedByTree(sha, items, x) && HashedAbove(sha, b, y)
    decreases |b|
  {
    var a, b' := Leaves(sha, items), NextLevel(sha, b);
    if Height(|a|) < Height(|b'|) {
      x, y := HeightsBind(sha, items, b');
    } else if Padded(a) != Padded(b') {
      x, y := LevelsBind(sha, a, b');
    } else {
      SlotIdentity(|a|, 0);
      PaddedParent(sha, b, 0);
      x, y := LeafInput(items[0]), NodeInput(Padded(b)[0], Padded(b)[1]);
      PrefixesDisjoint(items[0], Padded(b)[0], Padded(b)[1]);
      assert Padded(a)[0] == a[0];
    }
  }

  /** Two item lists, of any lengths, with equal roots are equal up to padding, or yield a collision. */
  lemma RootsBind(sha: Sha, a: seq<seq<byte>>, b: seq<seq<byte>>) returns (x: seq<byte>, y: seq<byte>)
    requires a != [] && b != []
    requires Root(sha, Leaves(sha, a)) == Root(sha, Leaves(sha, b)) && Padded(a) != Padded(b)
    ensures Collide(sha, x, y) && HashedByTree(sha, a, x) && HashedByTree(sha, b, y)
  {
    var la, lb := Leaves(sha, a), Leaves(sha, b);
    if Height(|a|) < Height(|b|) {
      x, y := HeightsBind(sha, a, lb);
    } else if Height(|b|) < Height(|a|) {
      y, x := HeightsBind(sha, b, la);
    } else if Padded(la) != Padded(lb) {
      x, y := LevelsBind(sha, la, lb);
    } else {
      var k :| 0 <= k < |Padded(a)| && Padded(a)[k] != Padded(b)[k];
      assert Padded(la)[k] == Padded(lb)[k];
      x, y := LeafInput(a[Slot(|a|, k)]), LeafInput(b[Slot(|b|, k)]);
      assert x[1..] == Padded(a)[k] && y[1..] == Padded(b)[k];
    }
  }

  /** ... and lists that are equal up to padding do have equal roots: the padding is exactly what a root commits to. */
  lemma PaddingDeterminesRoot(sha: Sha, a: seq<seq<byte>>, b: seq<seq<byte>>)
    requires a != [] && b != [] && Padded(a) == Padded(b)
    ensures Root(sha, Leaves(sha, a)) == Root(sha, Leaves(sha, b))
  {
    var la, lb := Leaves(sha, a), Leaves(sha, b);
    Pow2Injective(Height(|a|), Height(|b|));
    forall k | 0 <= k < |Padded(la)| ensures Padded(la)[k] == Padded(lb)[k] {
      assert Padded(a)[k] == Padded(b)[k];
    }
    assert Padded(la) == Padded(lb);
    RootIsFullRoot(sha, la);
    RootIsFullRoot(sha, lb);
  }

  lemma {:induction false} Pow2Injective(h: nat, k: nat)
    requires Pow2(h) == Pow2(k)
    ensures h == k
  {
    if h > 0 && k > 0 {
      Pow2Injective(h - 1, k - 1);
    }
  }

  /** Lists of equal length with equal roots are equal, or yield a collision. */
  lemma EqualLengthsBind(sha: Sha, a: seq<seq<byte>>, b: seq<seq<byte>>) returns (x: seq<byte>, y: seq<byte>)
    requires a != [] && |a| == |b| && a != b
    requires Root(sha, Leaves(sha, a)) == Root(sha, Leaves(sha, b))
    ensures Collide(sha, x, y) && HashedByTree(sha, a, x) && HashedByTree(sha, b, y)
  {
    PaddedPrefix(a);
    PaddedPrefix(b);
    x, y := RootsBind(sha, a, b);
  }

  /** For lists of different lengths binding fails: repeating the last item of an odd list keeps the root. */
  lemma RepeatedLastItemKeepsRoot(sha: Sha, a: seq<seq<byte>>)
    requires |a| % 2 == 1 && |a| >= 3
    ensures Root(sha, Leaves(sha, a)) == Root(sha, Leaves(sha, a + [a[|a| - 1]]))
  {
    var b := a + [a[|a| - 1]];
    assert (|a| + 1) / 2 == (|b| + 1) / 2;
    forall k | 0 <= k < |Padded(a)| ensures Padded(a)[k] == Padded(b)[k] {
    }
    assert Padded(a) == Padded(b);
    PaddingDeterminesRoot(sha, a, b);
  }

  // ---------------------------------------------------------------- soundness against any proof

  /** The place of the full tree that the directions of a proof lead to. */
  function PlaceOf(proof: Proof): (k: nat)
    ensures k < Pow2(|proof|)
  {
    if proof == [] then 0 else 2 * PlaceOf(proof[1..]) + (if proof[0].left.Some? then 1 else 0)
  }

  lemma ProofTail(proof: Proof, c: Hash)
    requires proof != [] && AllValid(proof)
    ensures proof[0].Valid() && AllValid(proof[1..]) && End(proof[1..], proof[0].target) == End(proof, c)
  {
  }

  /** An entry whose target is the parent at place `j` verifies only the child it points to. */
  lemma EntrySound(sha: Sha, level: seq<Hash>, entry: ProofEntry, j: nat, c: Hash) returns (x: seq<byte>)
    requires |level| >= 2 && j < |Padded(NextLevel(sha, level))| && entry.Valid()
    requires sha(entry.Input(c)) == Padded(NextLevel(sha, level))[j]
    requires 2 * j + 1 < |Padded(level)| && c != Padded(level)[2 * j + (if entry.left.Some? then 1 else 0)]
    ensures HashedAbove(sha, level, x) && Collide(sha, x, entry.Input(c))
  {
    PaddedParent(sha, level, j);
    var l, r := Padded(level)[2 * j], Padded(level)[2 * j + 1];
    x := NodeInput(l, r);
    if entry.left.Some? {
      NodesCollide(sha, l, r, entry.left.value, c);
    } else {
      NodesCollide(sha, l, r, c, entry.right.value);
    }
  }

  /** A proof as long as the tree is high, ending in its root, verifies only the node at its place. */
  lemma {:induction false} PlaceSound(sha: Sha, level: seq<Hash>, proof: Proof, c: Hash)
    returns (x: seq<byte>, y: seq<byte>)
    requires level != [] && AllValid(proof) && |proof| == Height(|level|)
    requires Verify(sha, proof, c) && End(proof, c) == Root(sha, level)
    ensures c == Padded(level)[PlaceOf(proof)] ||
            (Collide(sha, x, y) && HashedAbove(sha, level, x) && HashedByProof(proof, c, y))
    decreases |level|
  {
    x, y := [], [];
    if |level| > 1 {
      var next, rest, t := NextLevel(sha, level), proof[1..], proof[0].target;
      var j := PlaceOf(rest);
      ProofTail(proof, c);
      PaddedParent(sha, level, j) by { assert |rest| == Height(|next|); }
      x, y := PlaceSound(sha, next, rest, t);
      var k := 2 * j + (if proof[0].left.Some? then 1 else 0);
      assert k == PlaceOf(proof);
      if t == Padded(next)[j] && c != Padded(level)[k] {
        y := proof[0].Input(c);
        x := EntrySound(sha, level, proof[0], j, c);
      }
    }
  }

  /** A proof shorter than the tree is high cannot pass off an inner node as a leaf. */
  lemma {:induction false} ShortProofSound(sha: Sha, level: seq<Hash>, proof: Proof, item: seq<byte>)
    returns (x: seq<byte>, y: seq<byte>)
    requires level != [] && AllValid(proof) && |proof| < Height(|level|)
    requires Verify(sha, proof, LeafHash(sha, item)) && End(proof, LeafHash(sha, item)) == Root(sha, level)
    ensures Collide(sha, x, y) && HashedAbove(sha, level, x)
    ensures y == LeafInput(item) || HashedByProof(proof, LeafHash(sha, item), y)
    decreases |level|
  {
    var next, c := NextLevel(sha, level), LeafHash(sha, item);
    if |proof| < Height(|next|) {
      x, y := ShortProofSound(sha, next, proof, item);
    } else if c != Padded(next)[PlaceOf(proof)] {
      x, y := PlaceSound(sha, next, proof, c);
    } else {
      var j := PlaceOf(proof);
      PaddedParent(sha, level, j);
      x, y := NodeInput(Padded(level)[2 * j], Padded(level)[2 * j + 1]), LeafInput(item);
      PrefixesDisjoint(item, Padded(level)[2 * j], Padded(level)[2 * j + 1]);
    }
  }

  lemma EntryIsNoLeaf(item: seq<byte>, entry: ProofEntry, c: Hash)
    ensures LeafInput(item) != entry.Input(c)
  {
    assert LeafInput(item)[0] != entry.Input(c)[0];
  }

  /** A proof longer than the tree is high cannot continue below a leaf. */
  lemma {:induction false} LongProofSound(sha: Sha, items: seq<seq<byte>>, proof: Proof, c: Hash)
    returns (x: seq<byte>, y: seq<byte>)
    requires items != [] && AllValid(proof) && |proof| > Height(|items|)
    requires Verify(sha, proof, c) && End(proof, c) == Root(sha, Leaves(sha, items))
    ensures Collide(sha, x, y) && HashedByTree(sha, items, x) && HashedByProof(proof, c, y)
    decreases |proof|
  {
    var level, rest, t := Leaves(sha, items), proof[1..], proof[0].target;
    ProofTail(proof, c);
    if |rest| > Height(|items|) {
      x, y := LongProofSound(sha, items, rest, t);
    } else {
      var k := PlaceOf(rest);
      assert k < |Padded(level)| by { assert |rest| == Height(|level|); }
      if t != Padded(level)[k] {
        x, y := PlaceSound(sha, level, rest, t);
      } else {
        var s := Slot(|items|, k);
        x, y := LeafInput(items[s]), proof[0].Input(c);
        EntryIsNoLeaf(items[s], proof[0], c);
      }
    }
  }

  /** Whatever the proof, if it verifies an item and ends in the root of `items`, the item is one of them. */
  lemma MembershipSound(sha: Sha, items: seq<seq<byte>>, item: seq<byte>, proof: Proof)
    returns (x: seq<byte>, y: seq<byte>)
    requires items != [] && AllValid(proof) && item !in items
    requires Verify(sha, proof, LeafHash(sha, item))
    requires End(proof, LeafHash(sha, item)) == Root(sha, Leaves(sha, items))
    ensures Collide(sha, x, y) && HashedByTree(sha, items, x)
    ensures y == LeafInput(item) || HashedByProof(proof, LeafHash(sha, item), y)
  {
    var level, c := Leaves(sha, items), LeafHash(sha, item);
    if |proof| < Height(|items|) {
      x, y := ShortProofSound(sha, level, proof, item);
    } else if |proof| > Height(|items|) {
      x, y := LongProofSound(sha, items, proof, c);
    } else if c != Padded(level)[PlaceOf(proof)] {
      x, y := PlaceSound(sha, level, proof, c);
    } else {
      var s := Slot(|items|, PlaceOf(proof));
      x, y := LeafInput(items[s]), LeafInput(item);
      assert x[1..] == items[s] && y[1..] == item;
    }
  }

  // ---------------------------------------------------------------- capacity

  /** How many nodes are built for `n` leaves. */
  function NodeCount(n: nat): nat { if n <= 1 then n else n + NodeCount((n + 1) / 2) }

  lemma {:induction false} LevelsLength(sha: Sha, level: seq<Hash>)
    ensures |Levels(sha, level)| == NodeCount(|level|)
    decreases |level|
  {
    if |level| > 1 {
      LevelsLength(sha, NextLevel(sha, level));
    }
  }

  function FloorLog2(n: nat): nat
    requires n >= 1
  {
    if n == 1 then 0 else 1 + FloorLog2(n / 2)
  }

  lemma {:induction false} FloorLog2Monotone(m: nat, n: nat)
    requires 1 <= m <= n
    ensures FloorLog2(m) <= FloorLog2(n)
  {
    if m > 1 {
      FloorLog2Monotone(m / 2, n / 2);
    }
  }

  lemma {:induction false} NodeCountBound(n: nat)
    requires n >= 2
    ensures NodeCount(n) <= 2 * n + FloorLog2(n - 1) - 1
  {
    if n > 2 {
      var q := (n - 1) / 2;
      assert (n + 1) / 2 == q + 1 && 2 * q + 1 <= n;
      assert NodeCount(n) == n + NodeCount(q + 1);
      assert FloorLog2(n - 1) == 1 + FloorLog2(q);
      NodeCountBound(q + 1);
    } else {
      assert NodeCount(2) == 2 + NodeCount(1) == 3;
    }
  }

  /** The reserved capacity holds every tree, even when the fast logarithm comes out two too low. */
  lemma CapacitySuffices(sha: Sha, leaves: seq<Hash>, log: int)
    requires leaves != [] && log >= FloorLog2(|leaves|) - 2
    ensures |Levels(sha, leaves)| <= log + 2 * |leaves| + 1
  {
    var n := |leaves|;
    LevelsLength(sha, leaves);
    if n >= 2 {
      NodeCountBound(n);
      FloorLog2Monotone(n - 1, n);
    }
  }

  lemma {:induction false} OneAbovePower(k: nat)
    ensures NodeCount(Pow2(k) + 1) == 2 * (Pow2(k) + 1) + k - 1 && FloorLog2(Pow2(k) + 1) == if k == 0 then 1 else k
  {
    if k > 0 {
      OneAbovePower(k - 1);
      assert (Pow2(k) + 1 + 1) / 2 == Pow2(k - 1) + 1 && (Pow2(k) + 1) / 2 == Pow2(k - 1);
      FloorLog2Power(k - 1);
    }
  }

  lemma {:induction false} FloorLog2Power(k: nat)
    ensures Pow2(k) >= 1 && FloorLog2(Pow2(k)) == k
  {
    if k > 0 {
      FloorLog2Power(k - 1);
      assert Pow2(k) / 2 == Pow2(k - 1);
    }
  }

  /** ... and no lower: one leaf above a power of two needs every node of it. */
  lemma CapacityIsTight(sha: Sha, leaves: seq<Hash>, k: nat, log: int)
    requires k >= 1 && |leaves| == Pow2(k) + 1
    ensures |Levels(sha, leaves)| <= log + 2 * |leaves| + 1 <==> log >= FloorLog2(|leaves|) - 2
  {
    LevelsLength(sha, leaves);
    OneAbovePower(k);
  }
}
