/** The Merkle ledger: level building, inclusion proofs and their check. */
module Merkle {
  import opened Wrappers
  import opened Euclid
  import opened ModArith

  /** SHA-256 in hex: any function to strings of 64 characters. */
  type HashFunction = string -> string

  ghost predicate FixedLength(H: HashFunction) {
    forall s {:trigger H(s)} :: |H(s)| == 64
  }

  function HashPair(H: HashFunction, left: string, right: string): string {
    H(left + right)
  }

  // ----- Levels

  /** The two children of parent i; a missing right child is the left one again. */
  function LeftChild(level: seq<string>, i: nat): string
    requires 2 * i < |level|
  {
    level[2 * i]
  }

  function RightChild(level: seq<string>, i: nat): string
    requires 2 * i < |level|
  {
    if 2 * i + 1 < |level| then level[2 * i + 1] else level[2 * i]
  }

  function Half(n: nat): nat {
    (n + 1) / 2
  }

  function Parent(H: HashFunction, level: seq<string>, i: nat): string
    requires i < Half(|level|)
  {
    HashPair(H, LeftChild(level, i), RightChild(level, i))
  }

  /** The first k parents of a level. */
  function Parents(H: HashFunction, level: seq<string>, k: nat): (next: seq<string>)
    requires k <= Half(|level|)
    ensures |next| == k
  {
    if k == 0 then [] else Parents(H, level, k - 1) + [Parent(H, level, k - 1)]
  }

  function NextLevel(H: HashFunction, level: seq<string>): (next: seq<string>)
    ensures |next| == Half(|level|)
  {
    Parents(H, level, Half(|level|))
  }

  lemma {:induction false} ParentsAt(H: HashFunction, level: seq<string>, k: nat, i: nat)
    requires i < k <= Half(|level|)
    ensures Parents(H, level, k)[i] == Parent(H, level, i)
  {
    if i >= k - 1 {
    } else {
      ParentsAt(H, level, k - 1, i);
    }
  }

  lemma NextAt(H: HashFunction, level: seq<string>, i: nat)
    requires i < Half(|level|)
    ensures NextLevel(H, level)[i] == Parent(H, level, i)
  {
    ParentsAt(H, level, Half(|level|), i);
  }

  function Levels(H: HashFunction, level: seq<string>): (levels: seq<seq<string>>)
    ensures levels != [] && levels[0] == level
    decreases |level|
  {
    if |level| <= 1 then [level] else [level] + Levels(H, NextLevel(H, level))
  }

  /** The root of a non-empty list. */
  function Root(H: HashFunction, level: seq<string>): string
    requires level != []
    decreases |level|
  {
    if |level| == 1 then level[0] else Root(H, NextLevel(H, level))
  }

  predicate NonEmpty(level: seq<string>) {
    forall i | 0 <= i < |level| :: level[i] != ""
  }

  lemma NextNonEmpty(H: HashFunction, level: seq<string>)
    requires FixedLength(H)
    ensures NonEmpty(NextLevel(H, level)) && Lengths(NextLevel(H, level))
  {
    forall i | 0 <= i < |NextLevel(H, level)|
      ensures |NextLevel(H, level)[i]| == 64
    {
      NextAt(H, level, i);
    }
  }

  /** Every node is a hash. */
  predicate Lengths(level: seq<string>) {
    forall i | 0 <= i < |level| :: |level[i]| == 64
  }

  /** One round of `buildMerkleLevels`; an empty node is malformed. */
  method HashLevel(H: HashFunction, current: seq<string>) returns (r: Outcome<seq<string>>)
    ensures r.Returned? <==> NonEmpty(current)
    ensures r.Returned? ==> r.value == NextLevel(H, current)
  {
    var next: seq<string> := [];
    var index := 0;
    while index < |current|
      invariant index % 2 == 0 && index <= |current| + 1
      invariant |next| == index / 2 <= Half(|current|)
      invariant next == Parents(H, current, index / 2)
      invariant forall i | 0 <= i < index && i < |current| :: current[i] != ""
    {
      var left := current[index];
      var right := if index + 1 < |current| then current[index + 1] else left;
      if left == "" || right == "" {
        return Threw;
      }
      assert left == LeftChild(current, index / 2) && right == RightChild(current, index / 2);
      next := next + [HashPair(H, left, right)];
      index := index + 2;
    }
    r := Returned(next);
  }

  /** `buildMerkleLevels`: throws exactly when a list of two or more leaves has an empty one. */
  method BuildLevels(H: HashFunction, leaves: seq<string>) returns (r: Outcome<seq<seq<string>>>)
    requires FixedLength(H)
    ensures r.Returned? <==> |leaves| <= 1 || NonEmpty(leaves)
    ensures r.Returned? ==> r.value == Levels(H, leaves)
  {
    var levels := [leaves];
    var current := leaves;
    ghost var done: seq<seq<string>> := [];
    while |current| > 1
      invariant current == leaves || (NonEmpty(current) && NonEmpty(leaves))
      invariant levels == done + [current]
      invariant Levels(H, leaves) == done + Levels(H, current)
      decreases |current|
    {
      var next :- HashLevel(H, current);
      NextNonEmpty(H, current);
      LevelsUnroll(H, done, current);
      done := levels;
      levels := levels + [next];
      current := next;
    }
    r := Returned(levels);
  }

  lemma LevelsUnroll(H: HashFunction, done: seq<seq<string>>, level: seq<string>)
    requires |level| > 1
    ensures done + Levels(H, level) == (done + [level]) + Levels(H, NextLevel(H, level))
  {
  }

  lemma {:induction false} RootIsTop(H: HashFunction, level: seq<string>)
    requires level != []
    ensures var top := Levels(H, level)[|Levels(H, level)| - 1]; |top| == 1 && top[0] == Root(H, level)
    decreases |level|
  {
    if |level| <= 1 {
    } else {
      RootIsTop(H, NextLevel(H, level));
    }
  }

  /** `buildMerkleRoot`: the hash of the empty string stands for the empty ledger. */
  method BuildRoot(H: HashFunction, leaves: seq<string>) returns (r: Outcome<string>)
    requires FixedLength(H)
    ensures r.Returned? <==> |leaves| <= 1 || NonEmpty(leaves)
    ensures r.Returned? ==> r.value == if leaves == [] then H("") else Root(H, leaves)
  {
    if |leaves| == 0 {
      return Returned(H(""));
    }
    var levels :- BuildLevels(H, leaves);
    RootIsTop(H, leaves);
    r := Returned(levels[|levels| - 1][0]);
  }

  // ----- Shape

  lemma {:induction false} Pow2Positive(k: nat)
    ensures Pow2(k) > 0
  {
    if k == 0 {
    } else {
      Pow2Positive(k - 1);
    }
  }

  /** The ceiling of n/p, by its two bounds. */
  lemma CeilUnique(n: nat, p: nat, q: int)
    requires p > 0
    ensures q == (n + p - 1) / p <==> p * q - p < n <= p * q
  {
    var c := (n + p - 1) / p;
    assert n + p - 1 == p * c + (n + p - 1) % p;
    if p * q - p < n <= p * q {
      Apart(p, q, c);
      Apart(p, c, q);
    }
  }

  lemma Apart(p: nat, q: int, c: int)
    requires p > 0 && p * q - p < p * c
    ensures q <= c
  {
    Distribute(p, c, 1);
    if q > c {
      MulMonotone(p, c + 1, q);
    }
  }

  /** Halving and dividing by p, both rounded up, is dividing by 2p, rounded up. */
  lemma HalfCeil(n: nat, p: nat)
    requires p > 0
    ensures (Half(n) + p - 1) / p == (n + 2 * p - 1) / (2 * p)
  {
    var q := (Half(n) + p - 1) / p;
    CeilUnique(Half(n), p, q);
    var x := p * q;
    assert (2 * p) * q == 2 * x;
    CeilUnique(n, 2 * p, q);
  }

  lemma HalfPow2(n: nat, k: nat)
    ensures Pow2(k) > 0 && (Half(n) + Pow2(k) - 1) / Pow2(k) == (n + Pow2(k + 1) - 1) / Pow2(k + 1)
  {
    Pow2Positive(k);
    HalfCeil(n, Pow2(k));
  }

  /** Level k of n leaves has ceil(n / 2^k) nodes. */
  lemma {:induction false} LevelSize(H: HashFunction, leaves: seq<string>, k: nat)
    requires k < |Levels(H, leaves)|
    ensures Pow2(k) > 0 && |Levels(H, leaves)[k]| == (|leaves| + Pow2(k) - 1) / Pow2(k)
    decreases k
  {
    if k == 0 {
    } else {
      LevelSize(H, NextLevel(H, leaves), k - 1);
      HalfPow2(|leaves|, k - 1);
    }
  }

  /** The number of levels above the leaves is the least d with n <= 2^d: ceil(log2 n). */
  lemma {:induction false} Depth(H: HashFunction, leaves: seq<string>)
    requires leaves != []
    ensures var d := |Levels(H, leaves)| - 1;
            |leaves| <= Pow2(d) && (d > 0 ==> Pow2(d - 1) < |leaves|)
    decreases |leaves|
  {
    if |leaves| <= 1 {
    } else {
      var next := NextLevel(H, leaves);
      Depth(H, next);
      var d := |Levels(H, next)| - 1;
      assert |next| > 1 ==> d > 0;
    }
  }

  // ----- Proofs

  datatype Position = Left | Right
  datatype Sibling = Sibling(position: Position, hash: string)
  datatype Leaf = Leaf(executionId: string, hash: string)
  datatype MerkleProof = MerkleProof(executionId: string, leafHash: string, root: string, index: nat,
                                     siblings: seq<Sibling>)

  /** The sibling of a node: a right node's is on its left; a last left node is its own. */
  function SiblingOf(level: seq<string>, cursor: nat): Sibling
    requires cursor < |level|
  {
    if cursor % 2 == 1 then Sibling(Left, level[cursor - 1])
    else Sibling(Right, if cursor + 1 < |level| then level[cursor + 1] else level[cursor])
  }

  function Siblings(H: HashFunction, level: seq<string>, cursor: nat): seq<Sibling>
    requires cursor < |level|
    decreases |level|
  {
    if |level| == 1 then []
    else [SiblingOf(level, cursor)] + Siblings(H, NextLevel(H, level), cursor / 2)
  }

  function Climb(H: HashFunction, cursor: string, sibling: Sibling): string {
    if sibling.position == Left then HashPair(H, sibling.hash, cursor) else HashPair(H, cursor, sibling.hash)
  }

  /** The root a proof claims for a leaf. */
  function ClimbAll(H: HashFunction, cursor: string, siblings: seq<Sibling>): string
    decreases |siblings|
  {
    if siblings == [] then cursor else ClimbAll(H, Climb(H, cursor, siblings[0]), siblings[1..])
  }

  function Verifies(H: HashFunction, proof: MerkleProof): bool {
    ClimbAll(H, proof.leafHash, proof.siblings) == proof.root
  }

  /** `verifyMerkleProof`. */
  method VerifyProof(H: HashFunction, proof: MerkleProof) returns (ok: bool)
    ensures ok == Verifies(H, proof)
  {
    var cursor := proof.leafHash;
    for i := 0 to |proof.siblings|
      invariant ClimbAll(H, cursor, proof.siblings[i..]) == ClimbAll(H, proof.leafHash, proof.siblings)
    {
      var sibling := proof.siblings[i];
      assert proof.siblings[i..][1..] == proof.siblings[i + 1..];
      cursor := if sibling.position == Left then HashPair(H, sibling.hash, cursor)
                else HashPair(H, cursor, sibling.hash);
    }
    ok := cursor == proof.root;
  }

  function Hashes(leaves: seq<Leaf>): (hashes: seq<string>)
    ensures |hashes| == |leaves| && forall i | 0 <= i < |leaves| :: hashes[i] == leaves[i].hash
  {
    if leaves == [] then [] else Hashes(leaves[..|leaves| - 1]) + [leaves[|leaves| - 1].hash]
  }

  method FindLeaf(executionId: string, leaves: seq<Leaf>) returns (index: int)
    ensures -1 <= index < |leaves|
    ensures index == -1 ==> forall i | 0 <= i < |leaves| :: leaves[i].executionId != executionId
    ensures index >= 0 ==> leaves[index].executionId == executionId
    ensures index >= 0 ==> forall i | 0 <= i < index :: leaves[i].executionId != executionId
  {
    for i := 0 to |leaves|
      invariant forall j | 0 <= j < i :: leaves[j].executionId != executionId
    {
      if leaves[i].executionId == executionId {
        return i;
      }
    }
    index := -1;
  }

  lemma {:induction false} LevelsStep(H: HashFunction, leaves: seq<string>, k: nat)
    requires k + 1 < |Levels(H, leaves)|
    ensures |Levels(H, leaves)[k]| > 1 && Levels(H, leaves)[k + 1] == NextLevel(H, Levels(H, leaves)[k])
    decreases k
  {
    if k == 0 {
    } else {
      LevelsStep(H, NextLevel(H, leaves), k - 1);
    }
  }

  lemma UpperNonEmpty(H: HashFunction, leaves: seq<string>, k: nat)
    requires FixedLength(H) && k < |Levels(H, leaves)| && (|leaves| <= 1 || NonEmpty(leaves))
    ensures |leaves| > 1 ==> NonEmpty(Levels(H, leaves)[k])
  {
    if k > 0 {
      LevelsStep(H, leaves, k - 1);
      NextNonEmpty(H, Levels(H, leaves)[k - 1]);
    }
  }

  lemma SiblingsUnroll(H: HashFunction, done: seq<Sibling>, level: seq<string>, cursor: nat)
    requires |level| > 1 && cursor < |level|
    ensures done + Siblings(H, level, cursor)
            == (done + [SiblingOf(level, cursor)]) + Siblings(H, NextLevel(H, level), cursor / 2)
  {
  }

  /** The loop of `buildMerkleProof`: an empty sibling would be malformed, but there is none. */
  method CollectSiblings(H: HashFunction, hashes: seq<string>, levels: seq<seq<string>>, index: nat)
    returns (siblings: seq<Sibling>)
    requires FixedLength(H) && index < |hashes| && levels == Levels(H, hashes)
    requires |hashes| <= 1 || NonEmpty(hashes)
    ensures siblings == Siblings(H, hashes, index)
  {
    siblings := [];
    var cursor: nat := index;
    for levelIndex := 0 to |levels| - 1
      invariant cursor < |levels[levelIndex]|
      invariant Siblings(H, hashes, index) == siblings + Siblings(H, levels[levelIndex], cursor)
    {
      var level := levels[levelIndex];
      LevelsStep(H, hashes, levelIndex);
      UpperNonEmpty(H, hashes, levelIndex);
      SiblingsUnroll(H, siblings, level, cursor);
      var isRight := cursor % 2 == 1;
      var siblingIndex := if isRight then cursor - 1 else cursor + 1;
      var siblingHash := if siblingIndex < |level| then level[siblingIndex] else level[cursor];
      siblings := siblings + [Sibling(if isRight then Left else Right, siblingHash)];
      cursor := cursor / 2;
    }
    RootIsTop(H, hashes);
  }

  /**
    * `buildMerkleProof`: throws when the execution is unknown or the tree is malformed, and
    * otherwise proves the first leaf of that execution against the root of all leaves.
    */
  method BuildProof(H: HashFunction, executionId: string, leaves: seq<Leaf>) returns (r: Outcome<MerkleProof>)
    requires FixedLength(H)
    ensures r.Returned? <==> (exists i | 0 <= i < |leaves| :: leaves[i].executionId == executionId)
                             && (|leaves| <= 1 || NonEmpty(Hashes(leaves)))
    ensures r.Returned? ==>
              var hashes, i := Hashes(leaves), r.value.index;
              && i < |leaves| && leaves[i].executionId == executionId
              && (forall j | 0 <= j < i :: leaves[j].executionId != executionId)
              && r.value == MerkleProof(executionId, hashes[i], Root(H, hashes), i, Siblings(H, hashes, i))
  {
    var index := FindLeaf(executionId, leaves);
    if index < 0 {
      return Threw;
    }
    var hashes := Hashes(leaves);
    var levels :- BuildLevels(H, hashes);
    RootIsTop(H, hashes);
    var siblings := CollectSiblings(H, hashes, levels, index);
    r := Returned(MerkleProof(executionId, leaves[index].hash, levels[|levels| - 1][0], index, siblings));
  }

  // ----- Completeness

  lemma ClimbToParent(H: HashFunction, level: seq<string>, cursor: nat)
    requires cursor < |level|
    ensures NextLevel(H, level)[cursor / 2] == Climb(H, level[cursor], SiblingOf(level, cursor))
  {
    NextAt(H, level, cursor / 2);
    assert 2 * (cursor / 2) == if cursor % 2 == 1 then cursor - 1 else cursor;
  }

  /** Climbing from a node with its own siblings reaches the root. */
  lemma {:induction false} ClimbReachesRoot(H: HashFunction, level: seq<string>, cursor: nat)
    requires cursor < |level|
    ensures ClimbAll(H, level[cursor], Siblings(H, level, cursor)) == Root(H, level)
    decreases |level|
  {
    if |level| <= 1 {
    } else {
      var next := NextLevel(H, level);
      ClimbReachesRoot(H, next, cursor / 2);
      ClimbToParent(H, level, cursor);
      var siblings := Siblings(H, level, cursor);
      assert siblings[0] == SiblingOf(level, cursor) && siblings[1..] == Siblings(H, next, cursor / 2);
    }
  }

  /** The directions of a proof are the binary digits of the index, lowest first. */
  lemma {:induction false} PositionsAreBits(H: HashFunction, level: seq<string>, cursor: nat, j: nat)
    requires cursor < |level| && j < |Siblings(H, level, cursor)|
    ensures Pow2(j) > 0
    ensures Siblings(H, level, cursor)[j].position == Left <==> (cursor / Pow2(j)) % 2 == 1
    decreases j
  {
    Pow2Positive(j);
    if j == 0 {
    } else {
      PositionsAreBits(H, NextLevel(H, level), cursor / 2, j - 1);
      DivideTwice(cursor, Pow2(j - 1));
      LaterSibling(H, level, cursor, j);
    }
  }

  lemma LaterSibling(H: HashFunction, level: seq<string>, cursor: nat, j: nat)
    requires cursor < |level| && 0 < j < |Siblings(H, level, cursor)|
    ensures Siblings(H, level, cursor)[j] == Siblings(H, NextLevel(H, level), cursor / 2)[j - 1]
  {
  }

  lemma DivideTwice(c: nat, p: nat)
    requires p > 0
    ensures (c / 2) / p == c / (2 * p)
  {
    var q := (c / 2) / p;
    assert c / 2 == p * q + (c / 2) % p;
    var r := 2 * ((c / 2) % p) + c % 2;
    assert c == (2 * p) * q + r by { assert 2 * (p * q) == (2 * p) * q; }
    DivModUnique(c, q, r, 2 * p);
  }

  lemma {:induction false} SiblingCount(H: HashFunction, level: seq<string>, cursor: nat)
    requires cursor < |level|
    ensures |Siblings(H, level, cursor)| == |Levels(H, level)| - 1
    decreases |level|
  {
    if |level| <= 1 {
    } else {
      SiblingCount(H, NextLevel(H, level), cursor / 2);
    }
  }

  // ----- Soundness: equal, or two different hashed strings with one hash

  /** Two different strings with one hash, one from each collection. */
  ghost predicate Collide(H: HashFunction, s: set<string>, t: set<string>) {
    exists a, b :: a in s && b in t && a != b && H(a) == H(b)
  }

  /** The strings hashed while one level is built, and the whole tree. */
  function LevelInputs(level: seq<string>): set<string> {
    set i | 0 <= i < Half(|level|) :: LeftChild(level, i) + RightChild(level, i)
  }

  function TreeInputs(H: HashFunction, level: seq<string>): set<string>
    decreases |level|
  {
    if |level| <= 1 then {} else LevelInputs(level) + TreeInputs(H, NextLevel(H, level))
  }

  function ClimbInput(cursor: string, sibling: Sibling): string {
    if sibling.position == Left then sibling.hash + cursor else cursor + sibling.hash
  }

  /** The strings hashed while a proof is checked. */
  function ClimbInputs(H: HashFunction, cursor: string, siblings: seq<Sibling>): set<string>
    decreases |siblings|
  {
    if siblings == [] then {}
    else {ClimbInput(cursor, siblings[0])} + ClimbInputs(H, Climb(H, cursor, siblings[0]), siblings[1..])
  }

  lemma CollideMonotone(H: HashFunction, s: set<string>, t: set<string>, s': set<string>, t': set<string>)
    requires Collide(H, s, t) && s <= s' && t <= t'
    ensures Collide(H, s', t')
  {
  }

  lemma SplitPair(a: string, b: string, c: string, d: string)
    requires a + b == c + d && |a| == |c|
    ensures a == c && b == d
  {
    assert (a + b)[..|a|] == a && (c + d)[..|c|] == c;
    assert (a + b)[|a|..] == b && (c + d)[|c|..] == d;
  }

  /** The proof's directions are those of the given node. */
  predicate SameDirections(s: seq<Sibling>, t: seq<Sibling>) {
    |s| == |t| && forall j | 0 <= j < |s| :: s[j].position == t[j].position
  }

  lemma ClimbInputMatches(level: seq<string>, cursor: nat, node: string, sibling: Sibling)
    requires cursor < |level| && Lengths(level) && |node| == 64
    requires sibling.position == SiblingOf(level, cursor).position
    requires ClimbInput(node, sibling) == LeftChild(level, cursor / 2) + RightChild(level, cursor / 2)
    ensures node == level[cursor] && sibling == SiblingOf(level, cursor)
  {
    if sibling.position == Left {
      assert |sibling.hash + node| == 128;
      SplitPair(sibling.hash, node, LeftChild(level, cursor / 2), RightChild(level, cursor / 2));
    } else {
      SplitPair(node, sibling.hash, LeftChild(level, cursor / 2), RightChild(level, cursor / 2));
    }
  }

  /**
    * Soundness of the check: a proof with the directions of index i, whose leaf is a hash, that
    * climbs to the root of the leaves carries leaf i and exactly the honest siblings; otherwise
    * a string hashed by the check and one hashed by the tree collide.
    */
  lemma {:induction false} ClimbIsSound(H: HashFunction, level: seq<string>, cursor: nat, node: string,
                                        siblings: seq<Sibling>)
    requires FixedLength(H) && Lengths(level) && cursor < |level| && |node| == 64
    requires SameDirections(siblings, Siblings(H, level, cursor))
    requires ClimbAll(H, node, siblings) == Root(H, level)
    ensures (node == level[cursor] && siblings == Siblings(H, level, cursor))
            || Collide(H, ClimbInputs(H, node, siblings), TreeInputs(H, level))
    decreases |level|
  {
    if |level| <= 1 {
    } else {
      var next := NextLevel(H, level);
      var honest := Siblings(H, level, cursor);
      assert honest[1..] == Siblings(H, next, cursor / 2);
      var up := Climb(H, node, siblings[0]);
      NextNonEmpty(H, level);
      ClimbIsSound(H, next, cursor / 2, up, siblings[1..]);
      var a := ClimbInput(node, siblings[0]);
      var b := LeftChild(level, cursor / 2) + RightChild(level, cursor / 2);
      assert b in LevelInputs(level);
      NextAt(H, level, cursor / 2);
      assert up == H(a) && next[cursor / 2] == H(b);
      if a == b {
        assert siblings[0].position == honest[0].position;
        ClimbInputMatches(level, cursor, node, siblings[0]);
        assert siblings == [siblings[0]] + siblings[1..];
      }
    }
  }

  lemma PairBinds(H: HashFunction, s: seq<string>, t: seq<string>, i: nat)
    requires Lengths(s) && Lengths(t) && |s| == |t| && i < |s|
    requires NextLevel(H, s) == NextLevel(H, t)
    ensures s[i] == t[i] || Collide(H, LevelInputs(s), LevelInputs(t))
  {
    var j := i / 2;
    var a, b := LeftChild(s, j) + RightChild(s, j), LeftChild(t, j) + RightChild(t, j);
    NextAt(H, s, j);
    NextAt(H, t, j);
    assert a in LevelInputs(s) && b in LevelInputs(t);
    if a == b {
      SplitPair(LeftChild(s, j), RightChild(s, j), LeftChild(t, j), RightChild(t, j));
    }
  }

  lemma LevelBinds(H: HashFunction, s: seq<string>, t: seq<string>)
    requires Lengths(s) && Lengths(t) && |s| == |t|
    requires NextLevel(H, s) == NextLevel(H, t)
    ensures s == t || Collide(H, LevelInputs(s), LevelInputs(t))
  {
    if s != t {
      var i :| 0 <= i < |s| && s[i] != t[i];
      PairBinds(H, s, t, i);
    }
  }

  /** A leaf that is not 64 characters long can be cut elsewhere, so the check needs the length. */
  lemma UnhashedLeafUnbound(H: HashFunction, a: string, b: string)
    requires b != ""
    ensures ClimbAll(H, a + b[..1], [Sibling(Right, b[1..])]) == Root(H, [a, b])
  {
    assert (a + b[..1]) + b[1..] == a + b;
    NextAt(H, [a, b], 0);
    var up := ClimbAll(H, H(a + b), []);
    assert [Sibling(Right, b[1..])][1..] == [];
  }

  /** Binding: two equally long lists of hashes with one root are equal, or their trees collide. */
  lemma {:induction false} RootBinds(H: HashFunction, s: seq<string>, t: seq<string>)
    requires FixedLength(H) && Lengths(s) && Lengths(t) && |s| == |t| > 0
    requires Root(H, s) == Root(H, t)
    ensures s == t || Collide(H, TreeInputs(H, s), TreeInputs(H, t))
    decreases |s|
  {
    if |s| <= 1 {
    } else {
      var s', t' := NextLevel(H, s), NextLevel(H, t);
      NextNonEmpty(H, s);
      NextNonEmpty(H, t);
      RootBinds(H, s', t');
      if s' == t' {
        LevelBinds(H, s, t);
        if s != t {
          CollideMonotone(H, LevelInputs(s), LevelInputs(t), TreeInputs(H, s), TreeInputs(H, t));
        }
      } else {
        CollideMonotone(H, TreeInputs(H, s'), TreeInputs(H, t'), TreeInputs(H, s), TreeInputs(H, t));
      }
    }
  }

  lemma SameParents(H: HashFunction, longer: seq<string>, leaves: seq<string>, i: nat)
    requires |leaves| > 1 && |leaves| % 2 == 1 && longer == leaves + [leaves[|leaves| - 1]]
    requires i < Half(|leaves|)
    ensures Half(|longer|) == Half(|leaves|) && NextLevel(H, longer)[i] == NextLevel(H, leaves)[i]
  {
    NextAt(H, longer, i);
    NextAt(H, leaves, i);
    assert LeftChild(longer, i) == LeftChild(leaves, i) && RightChild(longer, i) == RightChild(leaves, i);
  }

  lemma SameNextLevel(H: HashFunction, longer: seq<string>, leaves: seq<string>)
    requires |leaves| > 1 && |leaves| % 2 == 1 && longer == leaves + [leaves[|leaves| - 1]]
    ensures NextLevel(H, longer) == NextLevel(H, leaves)
  {
    forall i | 0 <= i < Half(|leaves|)
      ensures Half(|longer|) == Half(|leaves|) && NextLevel(H, longer)[i] == NextLevel(H, leaves)[i]
    {
      SameParents(H, longer, leaves, i);
    }
  }

  /** A list and the level above it share a root: lists of different depth can, too. */
  lemma RootOfNext(H: HashFunction, level: seq<string>)
    requires |level| > 1
    ensures Root(H, level) == Root(H, NextLevel(H, level))
  {
  }

  /** Different lengths do not bind: an odd list and the list with its last leaf twice share a root. */
  lemma OddTailUnbound(H: HashFunction, leaves: seq<string>)
    requires |leaves| > 1 && |leaves| % 2 == 1
    ensures Root(H, leaves + [leaves[|leaves| - 1]]) == Root(H, leaves)
  {
    var longer := leaves + [leaves[|leaves| - 1]];
    SameNextLevel(H, longer, leaves);
    RootOfNext(H, longer);
    RootOfNext(H, leaves);
  }

  /**
    * Completeness: for every list of non-empty leaf hashes and every index the built proof
    * verifies, has ceil(log2 n) siblings, and spells the index in binary.
    */
  lemma HonestProofVerifies(H: HashFunction, hashes: seq<string>, i: nat, id: string)
    requires i < |hashes|
    ensures var proof := MerkleProof(id, hashes[i], Root(H, hashes), i, Siblings(H, hashes, i));
            var d := |proof.siblings|;
            && Verifies(H, proof)
            && |hashes| <= Pow2(d) && (d > 0 ==> Pow2(d - 1) < |hashes|)
            && forall j | 0 <= j < d :: Pow2(j) > 0 && (proof.siblings[j].position == Left <==> (i / Pow2(j)) % 2 == 1)
  {
    ClimbReachesRoot(H, hashes, i);
    SiblingCount(H, hashes, i);
    Depth(H, hashes);
    forall j | 0 <= j < |Siblings(H, hashes, i)|
      ensures Pow2(j) > 0 && (Siblings(H, hashes, i)[j].position == Left <==> (i / Pow2(j)) % 2 == 1)
    {
      PositionsAreBits(H, hashes, i, j);
    }
  }

  /** An index is spelled by its directions: two proofs of one tree with one set of directions are for one leaf. */
  lemma {:induction false} DirectionsNameIndex(H: HashFunction, level: seq<string>, i: nat, j: nat)
    requires i < |level| && j < |level|
    requires SameDirections(Siblings(H, level, i), Siblings(H, level, j))
    ensures i == j
    decreases |level|
  {
    if |level| <= 1 {
    } else {
      var next := NextLevel(H, level);
      var s, t := Siblings(H, level, i), Siblings(H, level, j);
      assert s[0].position == t[0].position;
      assert s[1..] == Siblings(H, next, i / 2) && t[1..] == Siblings(H, next, j / 2);
      DirectionsNameIndex(H, next, i / 2, j / 2);
    }
  }

  // ----- Any proof that verifies names a node of the tree

  /** A level of the tree has the same root, one sibling less per level, and hashes nothing new. */
  lemma {:induction false} LevelRoot(H: HashFunction, leaves: seq<string>, k: nat)
    requires leaves != [] && k < |Levels(H, leaves)|
    ensures var level := Levels(H, leaves)[k];
            && level != [] && Root(H, level) == Root(H, leaves)
            && |Levels(H, level)| == |Levels(H, leaves)| - k
            && TreeInputs(H, level) <= TreeInputs(H, leaves)
            && (FixedLength(H) && Lengths(leaves) ==> Lengths(level))
    decreases k
  {
    if k == 0 {
    } else {
      var next := NextLevel(H, leaves);
      if FixedLength(H) {
        NextNonEmpty(H, leaves);
      }
      LevelRoot(H, next, k - 1);
      assert Levels(H, leaves)[k] == Levels(H, next)[k - 1];
    }
  }

  /**
    * With as many siblings as there are levels above, and whatever its directions, a proof that
    * reaches the root started from a node of this level, or there is a collision.
    */
  lemma {:induction false} ClimbFindsNode(H: HashFunction, level: seq<string>, node: string, siblings: seq<Sibling>)
    returns (c: nat)
    requires FixedLength(H) && level != [] && Lengths(level) && |node| == 64
    requires |siblings| == |Levels(H, level)| - 1 && ClimbAll(H, node, siblings) == Root(H, level)
    ensures (c < |level| && node == level[c]) || Collide(H, ClimbInputs(H, node, siblings), TreeInputs(H, level))
    decreases |siblings|
  {
    c := 0;
    if |level| <= 1 {
    } else {
      var next := NextLevel(H, level);
      var up := Climb(H, node, siblings[0]);
      NextNonEmpty(H, level);
      var parent := ClimbFindsNode(H, next, up, siblings[1..]);
      if parent < |next| && up == next[parent] {
        c := ChildOf(H, level, parent, node, siblings[0]);
        var a, b := ClimbInput(node, siblings[0]), LeftChild(level, parent) + RightChild(level, parent);
        assert b in LevelInputs(level);
        NextAt(H, level, parent);
      }
    }
  }

  /** A node whose pair is that of a parent is one of its two children. */
  lemma ChildOf(H: HashFunction, level: seq<string>, parent: nat, node: string, sibling: Sibling) returns (c: nat)
    requires parent < Half(|level|) && Lengths(level) && |node| == 64
    ensures c < |level|
    ensures ClimbInput(node, sibling) == LeftChild(level, parent) + RightChild(level, parent) ==> node == level[c]
  {
    c := if sibling.position == Right || 2 * parent + 1 == |level| then 2 * parent else 2 * parent + 1;
    if ClimbInput(node, sibling) == LeftChild(level, parent) + RightChild(level, parent) {
      if sibling.position == Left {
        assert |sibling.hash + node| == 128;
        SplitPair(sibling.hash, node, LeftChild(level, parent), RightChild(level, parent));
      } else {
        SplitPair(node, sibling.hash, LeftChild(level, parent), RightChild(level, parent));
      }
    }
  }

  /** Climbing in two stages. */
  lemma {:induction false} ClimbSplits(H: HashFunction, node: string, siblings: seq<Sibling>, m: nat)
    requires m <= |siblings|
    ensures ClimbAll(H, node, siblings) == ClimbAll(H, ClimbAll(H, node, siblings[..m]), siblings[m..])
    ensures ClimbInputs(H, ClimbAll(H, node, siblings[..m]), siblings[m..]) <= ClimbInputs(H, node, siblings)
    decreases m
  {
    if m == 0 {
      assert siblings[..0] == [] && siblings[0..] == siblings;
    } else {
      var up, rest := Climb(H, node, siblings[0]), siblings[1..];
      ClimbSplits(H, up, rest, m - 1);
      assert siblings[..m][1..] == rest[..m - 1] && siblings[m..] == rest[m - 1..];
    }
  }

  lemma {:induction false} ClimbLength(H: HashFunction, node: string, siblings: seq<Sibling>)
    requires FixedLength(H) && |node| == 64
    ensures |ClimbAll(H, node, siblings)| == 64
    decreases |siblings|
  {
    if siblings == [] {
    } else {
      ClimbLength(H, Climb(H, node, siblings[0]), siblings[1..]);
    }
  }

  /** The siblings a proof has beyond the depth of the tree. */
  function Surplus(H: HashFunction, leaves: seq<string>, siblings: seq<Sibling>): (m: nat)
    ensures m <= |siblings|
  {
    if |siblings| < |Levels(H, leaves)| then 0 else |siblings| - (|Levels(H, leaves)| - 1)
  }

  /**
    * Whatever index, directions and number of siblings a proof claims: if its 64-character start
    * climbs to the root, then what it reaches after the siblings beyond the depth of the tree is a
    * node of the tree, at the level that the number of the others tells, or a string hashed by the
    * check collides with one hashed by the tree. Without surplus siblings that node is the start.
    */
  lemma ProofNamesNode(H: HashFunction, leaves: seq<string>, node: string, siblings: seq<Sibling>)
    returns (k: nat, c: nat)
    requires FixedLength(H) && leaves != [] && Lengths(leaves) && |node| == 64
    requires ClimbAll(H, node, siblings) == Root(H, leaves)
    ensures k == |Levels(H, leaves)| - 1 - (|siblings| - Surplus(H, leaves, siblings))
    ensures var m := Surplus(H, leaves, siblings);
            || (c < |Levels(H, leaves)[k]| && ClimbAll(H, node, siblings[..m]) == Levels(H, leaves)[k][c])
            || Collide(H, ClimbInputs(H, node, siblings), TreeInputs(H, leaves))
    ensures |siblings| < |Levels(H, leaves)| ==> ClimbAll(H, node, siblings[..Surplus(H, leaves, siblings)]) == node
  {
    var m := Surplus(H, leaves, siblings);
    var start, rest := ClimbAll(H, node, siblings[..m]), siblings[m..];
    ClimbSplits(H, node, siblings, m);
    ClimbLength(H, node, siblings[..m]);
    k := |Levels(H, leaves)| - 1 - |rest|;
    LevelRoot(H, leaves, k);
    var level := Levels(H, leaves)[k];
    c := ClimbFindsNode(H, level, start, rest);
    if Collide(H, ClimbInputs(H, start, rest), TreeInputs(H, level)) {
      CollideMonotone(H, ClimbInputs(H, start, rest), TreeInputs(H, level),
                      ClimbInputs(H, node, siblings), TreeInputs(H, leaves));
    }
  }

  /**
    * And every node does verify, under any index: the check compares neither the index nor the
    * number of siblings with anything, so only the number of siblings tells a leaf from an inner node.
    */
  lemma EveryNodeVerifies(H: HashFunction, leaves: seq<string>, k: nat, c: nat, id: string, index: nat)
    requires leaves != [] && k < |Levels(H, leaves)| && c < |Levels(H, leaves)[k]|
    ensures var level := Levels(H, leaves)[k];
            && Verifies(H, MerkleProof(id, level[c], Root(H, leaves), index, Siblings(H, level, c)))
            && |Siblings(H, level, c)| == |Levels(H, leaves)| - 1 - k
  {
    LevelRoot(H, leaves, k);
    ClimbReachesRoot(H, Levels(H, leaves)[k], c);
    SiblingCount(H, Levels(H, leaves)[k], c);
  }

  // ----- Exactly which lists share a root

  /** The number of leaves of the full tree over n leaves. */
  function Width(n: nat): (w: nat)
    requires n > 0
    ensures w > 0
  {
    if n == 1 then 1 else 2 * Width(Half(n))
  }

  /** The leaf that stands in place j of the full tree: a missing right child is the left one again. */
  function Source(n: nat, j: nat): (i: nat)
    requires n > 0 && j < Width(n)
    ensures i < n
  {
    if n == 1 then 0
    else
      var i := 2 * Source(Half(n), j / 2) + j % 2;
      if i < n then i else n - 1
  }

  /** The leaves of the full tree: the list with every odd tail, at every level, written out. */
  function Completed(leaves: seq<string>): seq<string>
    requires leaves != []
  {
    seq(Width(|leaves|), j requires 0 <= j < Width(|leaves|) => leaves[Source(|leaves|, j)])
  }

  lemma CompletedPair(leaves: seq<string>, k: nat)
    requires |leaves| > 1 && k < Width(Half(|leaves|))
    ensures Half(Width(|leaves|)) == Width(Half(|leaves|)) && 2 * k + 1 < Width(|leaves|)
    ensures LeftChild(Completed(leaves), k) == LeftChild(leaves, Source(Half(|leaves|), k))
    ensures RightChild(Completed(leaves), k) == RightChild(leaves, Source(Half(|leaves|), k))
  {
    assert (2 * k) / 2 == k && (2 * k) % 2 == 0 && (2 * k + 1) / 2 == k && (2 * k + 1) % 2 == 1;
  }

  /** Completing and hashing a level commute. */
  lemma CompletedNext(H: HashFunction, leaves: seq<string>)
    requires |leaves| > 1
    ensures NextLevel(H, Completed(leaves)) == Completed(NextLevel(H, leaves))
    ensures LevelInputs(Completed(leaves)) <= LevelInputs(leaves)
  {
    var full, next := Completed(leaves), NextLevel(H, leaves);
    assert Half(|full|) == Width(Half(|leaves|));
    forall k | 0 <= k < Half(|full|)
      ensures NextLevel(H, full)[k] == Completed(next)[k]
      ensures LeftChild(full, k) + RightChild(full, k) in LevelInputs(leaves)
    {
      CompletedPair(leaves, k);
      NextAt(H, full, k);
      NextAt(H, leaves, Source(Half(|leaves|), k));
    }
  }

  /** The full tree has the same root and hashes nothing new. */
  lemma {:induction false} CompletedRoot(H: HashFunction, leaves: seq<string>)
    requires leaves != []
    ensures Root(H, Completed(leaves)) == Root(H, leaves)
    ensures TreeInputs(H, Completed(leaves)) <= TreeInputs(H, leaves)
    decreases |leaves|
  {
    if |leaves| == 1 {
      assert Completed(leaves) == leaves;
    } else {
      CompletedNext(H, leaves);
      CompletedRoot(H, NextLevel(H, leaves));
      RootOfNext(H, Completed(leaves));
    }
  }

  /** Lists with equally many levels have full trees of one size. */
  lemma {:induction false} WidthIsDepth(H: HashFunction, leaves: seq<string>)
    requires leaves != []
    ensures Width(|leaves|) == Pow2(|Levels(H, leaves)| - 1)
    decreases |leaves|
  {
    if |leaves| <= 1 {
    } else {
      WidthIsDepth(H, NextLevel(H, leaves));
    }
  }

  /** Two lists of hashes of one depth share a root exactly when they complete alike, unless their trees collide. */
  lemma SameDepthRoots(H: HashFunction, s: seq<string>, t: seq<string>)
    requires FixedLength(H) && s != [] && t != [] && Lengths(s) && Lengths(t)
    requires |Levels(H, s)| == |Levels(H, t)|
    ensures Completed(s) == Completed(t) ==> Root(H, s) == Root(H, t)
    ensures Root(H, s) == Root(H, t) ==> Completed(s) == Completed(t) || Collide(H, TreeInputs(H, s), TreeInputs(H, t))
  {
    CompletedRoot(H, s);
    CompletedRoot(H, t);
    WidthIsDepth(H, s);
    WidthIsDepth(H, t);
    if Root(H, s) == Root(H, t) {
      RootBinds(H, Completed(s), Completed(t));
      if Completed(s) != Completed(t) {
        CollideMonotone(H, TreeInputs(H, Completed(s)), TreeInputs(H, Completed(t)), TreeInputs(H, s),
                        TreeInputs(H, t));
      }
    }
  }

  /**
    * Exactly which lists of hashes share a root, unless their trees collide: let u be the level of
    * the deeper tree that lies as deep as the leaves of the other; the roots agree if and only if u
    * and the other list complete to the same full tree. For equally deep trees u is the list itself.
    */
  lemma RootsAgreeIff(H: HashFunction, s: seq<string>, t: seq<string>)
    requires FixedLength(H) && s != [] && t != [] && Lengths(s) && Lengths(t)
    requires |Levels(H, s)| >= |Levels(H, t)|
    ensures var u := Levels(H, s)[|Levels(H, s)| - |Levels(H, t)|];
            && u != []
            && (Completed(u) == Completed(t) ==> Root(H, s) == Root(H, t))
            && (Root(H, s) == Root(H, t) ==>
                  Completed(u) == Completed(t) || Collide(H, TreeInputs(H, s), TreeInputs(H, t)))
  {
    var k := |Levels(H, s)| - |Levels(H, t)|;
    LevelRoot(H, s, k);
    var u := Levels(H, s)[k];
    SameDepthRoots(H, u, t);
    if Collide(H, TreeInputs(H, u), TreeInputs(H, t)) {
      CollideMonotone(H, TreeInputs(H, u), TreeInputs(H, t), TreeInputs(H, s), TreeInputs(H, t));
    }
  }

  /** For equal lengths, completing alike is being equal. */
  lemma CompletedInjective(s: seq<string>, t: seq<string>)
    requires |s| == |t| > 0
    ensures Completed(s) == Completed(t) <==> s == t
  {
    if Completed(s) == Completed(t) {
      forall i | 0 <= i < |s|
        ensures s[i] == t[i]
      {
        var j := PlaceOf(|s|, i);
        assert Completed(s)[j] == Completed(t)[j];
      }
    }
  }

  /** Every leaf stands somewhere in the full tree. */
  lemma {:induction false} PlaceOf(n: nat, i: nat) returns (j: nat)
    requires i < n
    ensures j < Width(n) && Source(n, j) == i
  {
    if n == 1 {
      j := 0;
    } else {
      var half := PlaceOf(Half(n), i / 2);
      j := 2 * half + i % 2;
      assert j / 2 == half && j % 2 == i % 2;
    }
  }
}
