/** The binary Merkle commitment tree as pure values: how one level is
    paired up into the next, the stack of levels up to the root, the
    authentication path of a leaf, and the fold a verifier runs over it.
    The loops of the MerkleTree class are proved against these. */
module MerkleSpec {
  import opened Hex

  type Digest = seq<byte>

  /** The hash primitive (SHA-256 in the system). It is a parameter of the
      model: every lemma holds for any deterministic function, and the ones
      about tampering say which extra assumption they need. */
  type Hasher = seq<byte> -> seq<byte>

  /** Collision-freedom. No function with a fixed 32-byte output can have it,
      so it is assumed only by the tamper lemmas, as an idealisation. */
  ghost predicate Injective(hash: Hasher) {
    forall a, b :: hash(a) == hash(b) ==> a == b
  }

  /** No digest is empty, as with SHA-256's 32 bytes. Only this makes the
      empty tree's root `""` distinct from the hex of every real digest. */
  ghost predicate NonEmptyDigests(hash: Hasher) {
    forall x :: |hash(x)| > 0
  }

  /** The bottom level: every leaf hashed on its own. */
  function HashLeaves(hash: Hasher, leaves: seq<seq<byte>>): seq<Digest> {
    seq(|leaves|, i requires 0 <= i < |leaves| => hash(leaves[i]))
  }

  /** Pairs adjacent digests left to right; an unpaired last digest is
      hashed with itself. */
  function NextLevel(hash: Hasher, level: seq<Digest>): (next: seq<Digest>)
    ensures |next| == (|level| + 1) / 2
  {
    if |level| == 0 then []
    else if |level| == 1 then [hash(level[0] + level[0])]
    else [hash(level[0] + level[1])] + NextLevel(hash, level[2..])
  }

  /** Parent k of a level, by position: the digest at 2k with its right
      neighbour, or with itself when 2k is the last position. */
  function ParentAt(hash: Hasher, level: seq<Digest>, k: nat): Digest
    requires k < (|level| + 1) / 2
  {
    var right := if 2 * k + 1 < |level| then level[2 * k + 1] else level[2 * k];
    hash(level[2 * k] + right)
  }

  lemma {:induction false} NextLevelAt(hash: Hasher, level: seq<Digest>, k: nat)
    requires k < (|level| + 1) / 2
    ensures NextLevel(hash, level)[k] == ParentAt(hash, level, k)
  {
    if k > 0 {
      NextLevelAt(hash, level[2..], k - 1);
    }
  }

  /** A level holding exactly the parents by position is the next level. */
  lemma NextLevelByPosition(hash: Hasher, level: seq<Digest>, next: seq<Digest>)
    requires |next| == (|level| + 1) / 2
    requires forall k :: 0 <= k < |next| ==> next[k] == ParentAt(hash, level, k)
    ensures next == NextLevel(hash, level)
  {
    forall k | 0 <= k < |next| ensures next[k] == NextLevel(hash, level)[k] {
      NextLevelAt(hash, level, k);
    }
  }

  /** The proof's choice of sibling for position `index`: the right
      neighbour for an even index, the left one for an odd index, and the
      node itself when the right neighbour does not exist. */
  function Sibling(level: seq<Digest>, index: nat): Digest
    requires index < |level|
  {
    var siblingIndex := if index % 2 == 0 then index + 1 else index - 1;
    if siblingIndex < |level| then level[siblingIndex] else level[index]
  }

  /** The sibling rule of proofs agrees with the pairing rule of the build:
      hashing a node with its sibling, in the order its parity gives, yields
      its parent. */
  lemma SiblingMatchesBuild(hash: Hasher, level: seq<Digest>, index: nat)
    requires index < |level|
    ensures index / 2 < |NextLevel(hash, level)|
    ensures NextLevel(hash, level)[index / 2] ==
      if index % 2 == 0 then hash(level[index] + Sibling(level, index))
      else hash(Sibling(level, index) + level[index])
  {
    var k := index / 2;
    NextLevelAt(hash, level, k);
    if index % 2 == 0 {
      assert 2 * k == index;
    } else {
      assert 2 * k == index - 1 && 2 * k + 1 == index;
    }
  }

  /** All levels from a non-empty bottom level up, stored root-first: the
      first entry is the one-digest root level, the last is `level`, and
      every entry is the next level of the entry after it. */
  function Tower(hash: Hasher, level: seq<Digest>): (levels: seq<seq<Digest>>)
    requires |level| >= 1
    ensures |levels| >= 1 && levels[|levels| - 1] == level
    ensures |levels[0]| == 1
    decreases |level|
  {
    if |level| == 1 then [level]
    else Tower(hash, NextLevel(hash, level)) + [level]
  }

  /** Putting the next level on top of a level (the constructor's `unshift`)
      extends a partial tower by one level. */
  lemma TowerUnshift(hash: Hasher, level: seq<Digest>, rest: seq<seq<Digest>>, bottom: seq<Digest>)
    requires |level| > 1 && |bottom| >= 1
    requires Tower(hash, level) + rest == Tower(hash, bottom)
    ensures Tower(hash, NextLevel(hash, level)) + ([level] + rest) == Tower(hash, bottom)
  {
  }

  /** Every entry of a tower but the top has more than one digest, and the
      entry above it is its next level. */
  lemma {:induction false} TowerChain(hash: Hasher, level: seq<Digest>, j: nat)
    requires |level| >= 1 && 0 < j < |Tower(hash, level)|
    ensures |Tower(hash, level)[j]| > 1
    ensures Tower(hash, level)[j - 1] == NextLevel(hash, Tower(hash, level)[j])
    decreases |level|
  {
    var t, up := Tower(hash, level), Tower(hash, NextLevel(hash, level));
    assert t == up + [level];
    if j < |t| - 1 {
      TowerChain(hash, NextLevel(hash, level), j);
    }
  }

  /** The levels a MerkleTree stores for `leaves`: none for no leaves. */
  function Levels(hash: Hasher, leaves: seq<seq<byte>>): seq<seq<Digest>> {
    if leaves == [] then [] else Tower(hash, HashLeaves(hash, leaves))
  }

  /** The root digest, by pairing up level after level. */
  function Root(hash: Hasher, level: seq<Digest>): Digest
    requires |level| >= 1
    decreases |level|
  {
    if |level| == 1 then level[0] else Root(hash, NextLevel(hash, level))
  }

  /** Self-pairing makes an odd level indistinguishable from the same level
      with its last digest repeated: both pair up into the same next level. */
  lemma {:induction false} NextLevelRepeatLast(hash: Hasher, level: seq<Digest>)
    requires |level| % 2 == 1
    ensures NextLevel(hash, level + [level[|level| - 1]]) == NextLevel(hash, level)
    decreases |level|
  {
    var last := level[|level| - 1];
    var longer := level + [last];
    if |level| > 1 {
      assert longer[..2] == level[..2];
      assert longer[2..] == level[2..] + [last];
      assert level[2..][|level| - 3] == last;
      NextLevelRepeatLast(hash, level[2..]);
    }
  }

  /** The root does not fix the leaf list: a list of an odd number (at least
      three) of leaves has the same root as the list with its last leaf
      repeated, for every hash function. */
  lemma RootCollision(hash: Hasher, leaves: seq<seq<byte>>)
    requires |leaves| % 2 == 1 && |leaves| >= 3
    ensures leaves + [leaves[|leaves| - 1]] != leaves
    ensures Root(hash, HashLeaves(hash, leaves + [leaves[|leaves| - 1]])) == Root(hash, HashLeaves(hash, leaves))
  {
    var bottom := HashLeaves(hash, leaves);
    var longer := leaves + [leaves[|leaves| - 1]];
    assert HashLeaves(hash, longer) == bottom + [bottom[|bottom| - 1]];
    NextLevelRepeatLast(hash, bottom);
  }

  /** With non-empty digests, the root of a non-empty leaf list is a
      non-empty digest: one leaf's hash, or the hash of the top pair. */
  lemma RootNonEmpty(hash: Hasher, leaves: seq<seq<byte>>)
    requires NonEmptyDigests(hash) && leaves != []
    ensures |Root(hash, HashLeaves(hash, leaves))| > 0
  {
    var bottom := HashLeaves(hash, leaves);
    if |bottom| > 1 {
      var t := Tower(hash, bottom);
      TowerTop(hash, bottom);
      TowerChain(hash, bottom, 1);
      NextLevelAt(hash, t[1], 0);
    }
  }

  /** The top of the tower is the root, alone in its level. */
  lemma {:induction false} TowerTop(hash: Hasher, level: seq<Digest>)
    requires |level| >= 1
    ensures Tower(hash, level)[0] == [Root(hash, level)]
    decreases |level|
  {
    if |level| > 1 {
      TowerTop(hash, NextLevel(hash, level));
    }
  }

  /** The authentication path of position `index`: one sibling per level,
      bottom to top, stopping below the root level. */
  function AuthPath(hash: Hasher, level: seq<Digest>, index: nat): seq<Digest>
    requires index < |level|
    decreases |level|
  {
    if |level| == 1 then []
    else [Sibling(level, index)] + AuthPath(hash, NextLevel(hash, level), index / 2)
  }

  /** A path has one sibling per level below the root level. */
  lemma {:induction false} AuthPathLength(hash: Hasher, level: seq<Digest>, index: nat)
    requires index < |level|
    ensures |AuthPath(hash, level, index)| == |Tower(hash, level)| - 1
    decreases |level|
  {
    if |level| > 1 {
      AuthPathLength(hash, NextLevel(hash, level), index / 2);
    }
  }

  /** The verifier's recomputation: combine the running digest with each
      sibling in turn, on the side the index's parity gives, halving the
      index (rounding down) after each step. */
  function Fold(hash: Hasher, running: Digest, path: seq<Digest>, index: int): Digest
    decreases |path|
  {
    if path == [] then running
    else
      var up := if index % 2 == 0 then hash(running + path[0]) else hash(path[0] + running);
      Fold(hash, up, path[1..], index / 2)
  }

  /** With non-empty digests, the verifier's recomputation never yields the
      empty digest. */
  lemma {:induction false} FoldNonEmpty(hash: Hasher, running: Digest, path: seq<Digest>, index: int)
    requires NonEmptyDigests(hash) && |running| > 0
    ensures |Fold(hash, running, path, index)| > 0
    decreases |path|
  {
    if path != [] {
      var up := if index % 2 == 0 then hash(running + path[0]) else hash(path[0] + running);
      FoldNonEmpty(hash, up, path[1..], index / 2);
    }
  }

  /** Only the low |path| bits of the index steer the fold, so the verifier
      answers the same for index i and i + 2^|path|: it does not check that
      the index is in range. */
  lemma {:induction false} FoldIndexPeriodic(hash: Hasher, running: Digest, path: seq<Digest>, index: int)
    ensures Fold(hash, running, path, index + Pow2(|path|)) == Fold(hash, running, path, index)
    decreases |path|
  {
    if path != [] {
      var q := Pow2(|path| - 1);
      assert (index + 2 * q) % 2 == index % 2;
      assert (index + 2 * q) / 2 == index / 2 + q;
      var up := if index % 2 == 0 then hash(running + path[0]) else hash(path[0] + running);
      FoldIndexPeriodic(hash, up, path[1..], index / 2);
    }
  }

  /** Completeness: folding a node's authentication path yields the root. */
  lemma {:induction false} AuthPathFoldsToRoot(hash: Hasher, level: seq<Digest>, index: nat)
    requires index < |level|
    ensures Fold(hash, level[index], AuthPath(hash, level, index), index) == Root(hash, level)
    decreases |level|
  {
    if |level| > 1 {
      SiblingMatchesBuild(hash, level, index);
      AuthPathFoldsToRoot(hash, NextLevel(hash, level), index / 2);
    }
  }

  function Pow2(d: nat): (p: nat)
    ensures p >= 1
  {
    if d == 0 then 1 else 2 * Pow2(d - 1)
  }

  /** The level d steps above a bottom level of N digests holds ceil(N / 2^d)
      digests: the least s with s * 2^d >= N. */
  lemma {:induction false} LevelSize(hash: Hasher, level: seq<Digest>, d: nat)
    requires |level| >= 1 && d < |Tower(hash, level)|
    ensures var s := |Tower(hash, level)[|Tower(hash, level)| - 1 - d]|;
      (s - 1) * Pow2(d) < |level| <= s * Pow2(d)
    decreases |level|
  {
    if d > 0 {
      var next := NextLevel(hash, level);
      var t, up := Tower(hash, level), Tower(hash, next);
      assert t == up + [level];
      assert t[|t| - 1 - d] == up[|up| - 1 - (d - 1)];
      LevelSize(hash, next, d - 1);
      var s, p := |t[|t| - 1 - d]|, Pow2(d - 1);
      assert (s - 1) * p < |next| <= s * p;
      DoublingBounds(|level|, s, p);
      assert Pow2(d) == 2 * p;
    } else {
      assert Pow2(d) == 1;
    }
  }

  /** If (s-1)p < ceil(n/2) <= sp then (s-1)2p < n <= s2p. */
  lemma DoublingBounds(n: int, s: int, p: int)
    requires (s - 1) * p < (n + 1) / 2 <= s * p
    ensures (s - 1) * (2 * p) < n <= s * (2 * p)
  {
  }

  /** A tree over N >= 1 leaves has ceil(log2 N) levels above the leaves,
      which is the length of every authentication path. */
  lemma TowerHeight(hash: Hasher, level: seq<Digest>)
    requires |level| >= 1
    ensures var h := |Tower(hash, level)| - 1;
      |level| <= Pow2(h) && (h > 0 ==> Pow2(h - 1) < |level|)
  {
    var t := Tower(hash, level);
    var h := |t| - 1;
    LevelSize(hash, level, h);
    if h > 0 {
      TowerChain(hash, level, 1);
      LevelSize(hash, level, h - 1);
      ScaledBound(|t[1]|, Pow2(h - 1), |level|);
    }
  }

  lemma ScaledBound(s: int, p: nat, n: int)
    requires s >= 2 && (s - 1) * p < n
    ensures p < n
  {
  }

  /** Two different running digests stay different through the same path. */
  lemma {:induction false} FoldSeparates(hash: Hasher, r1: Digest, r2: Digest, path: seq<Digest>, index: int)
    requires Injective(hash) && r1 != r2
    ensures Fold(hash, r1, path, index) != Fold(hash, r2, path, index)
    decreases |path|
  {
    if path != [] {
      var s := path[0];
      if index % 2 == 0 {
        assert (r1 + s)[..|r1|] == r1 && (r2 + s)[..|r2|] == r2;
        assert hash(r1 + s) != hash(r2 + s);
        FoldSeparates(hash, hash(r1 + s), hash(r2 + s), path[1..], index / 2);
      } else {
        assert (s + r1)[|s|..] == r1 && (s + r2)[|s|..] == r2;
        assert hash(s + r1) != hash(s + r2);
        FoldSeparates(hash, hash(s + r1), hash(s + r2), path[1..], index / 2);
      }
    }
  }

  /** Replacing one sibling of a path by a different digest changes the
      folded result. */
  lemma {:induction false} FoldDetectsTamper(hash: Hasher, running: Digest, path: seq<Digest>, k: nat, d: Digest, index: int)
    requires Injective(hash) && k < |path| && d != path[k]
    ensures Fold(hash, running, path[k := d], index) != Fold(hash, running, path, index)
    decreases |path|
  {
    var bad := path[k := d];
    var s, t := bad[0], path[0];
    if k == 0 {
      assert bad[1..] == path[1..];
      if index % 2 == 0 {
        assert (running + s)[|running|..] == s && (running + t)[|running|..] == t;
        FoldSeparates(hash, hash(running + s), hash(running + t), path[1..], index / 2);
      } else {
        assert (s + running)[..|s|] == s && (t + running)[..|t|] == t;
        FoldSeparates(hash, hash(s + running), hash(t + running), path[1..], index / 2);
      }
    } else {
      assert bad[1..] == path[1..][k - 1 := d];
      var up := if index % 2 == 0 then hash(running + t) else hash(t + running);
      FoldDetectsTamper(hash, up, path[1..], k - 1, d, index / 2);
    }
  }
}
