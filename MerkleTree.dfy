/** The MerkleTree class: built once from its leaves, then asked for its
    root and for authentication paths; a static method checks a path
    against a root without a tree. */
module Merkle {
  import opened Hex
  import opened MerkleSpec

  function EncodeAll(path: seq<Digest>): seq<string> {
    seq(|path|, i requires 0 <= i < |path| => Encode(path[i]))
  }

  function DecodeAll(proof: seq<string>): seq<Digest> {
    seq(|proof|, i requires 0 <= i < |proof| => Decode(proof[i]))
  }

  /** Hex proof elements decode back to the digests they were made from. */
  lemma DecodeAllEncodeAll(path: seq<Digest>)
    ensures DecodeAll(EncodeAll(path)) == path
  {
    forall i | 0 <= i < |path| ensures DecodeAll(EncodeAll(path))[i] == path[i] {
      DecodeEncode(path[i]);
    }
  }

  /** One iteration of the proof loop: at stored level `lvl`, below the root
      level, the path from position `index` starts with that position's
      sibling and goes on with the path of its parent one level up. */
  lemma ProofStep(hash: Hasher, bottom: seq<Digest>, levels: seq<seq<Digest>>, lvl: nat, index: nat, rest: seq<Digest>)
    requires |bottom| >= 1 && levels == Tower(hash, bottom) && 0 < lvl < |levels|
    requires index < |levels[lvl]|
    requires AuthPath(hash, levels[lvl], index) == rest
    ensures index / 2 < |levels[lvl - 1]|
    ensures |rest| > 0 && rest[0] == Sibling(levels[lvl], index)
    ensures AuthPath(hash, levels[lvl - 1], index / 2) == rest[1..]
  {
    TowerChain(hash, bottom, lvl);
  }

  /** The proof loop's state: at stored level `lvl` and position `index`,
      the hex elements so far are the first entries of the full path `full`,
      and the path from the current position is the rest of it. */
  ghost predicate ProofSoFar(hash: Hasher, levels: seq<seq<Digest>>, lvl: int, index: int, full: seq<Digest>, proof: seq<string>) {
    0 <= lvl < |levels| && 0 <= index < |levels[lvl]| && |proof| <= |full|
    && (forall k :: 0 <= k < |proof| ==> proof[k] == Encode(full[k]))
    && AuthPath(hash, levels[lvl], index) == full[|proof|..]
  }

  /** One iteration of the proof loop keeps its state: the current
      position's sibling is the next entry of the path, one level up. */
  lemma ProofLoopStep(hash: Hasher, bottom: seq<Digest>, levels: seq<seq<Digest>>, lvl: int, index: int, full: seq<Digest>, proof: seq<string>)
    requires |bottom| >= 1 && levels == Tower(hash, bottom) && lvl > 0
    requires ProofSoFar(hash, levels, lvl, index, full, proof)
    ensures ProofSoFar(hash, levels, lvl - 1, index / 2, full, proof + [Encode(Sibling(levels[lvl], index))])
  {
    var rest := full[|proof|..];
    ProofStep(hash, bottom, levels, lvl, index, rest);
    PathAdvance(full, proof);
    var next := proof + [Encode(Sibling(levels[lvl], index))];
    assert Sibling(levels[lvl], index) == full[|proof|];
    assert |next| == |proof| + 1 <= |full|;
    assert AuthPath(hash, levels[lvl - 1], index / 2) == full[|next|..];
  }

  /** Encoding one more entry of a path extends the encoded prefix by one. */
  lemma PathAdvance(full: seq<Digest>, proof: seq<string>)
    requires |proof| < |full| && forall k :: 0 <= k < |proof| ==> proof[k] == Encode(full[k])
    ensures var next := proof + [Encode(full[|proof|])];
      forall k :: 0 <= k < |next| ==> next[k] == Encode(full[k])
    ensures full[|proof|..][0] == full[|proof|] && full[|proof| + 1..] == full[|proof|..][1..]
  {
  }

  /** What the static verifier answers: the hex of the digest folded from
      the hashed leaf along the decoded proof equals the claimed root. */
  predicate Verifies(hash: Hasher, leaf: seq<byte>, proof: seq<string>, rootHex: string, leafIndex: int) {
    Encode(Fold(hash, hash(leaf), DecodeAll(proof), leafIndex)) == rootHex
  }

  /** The empty tree's root `""` is never the answer: with non-empty
      digests, no leaf, proof and index verify against it. */
  lemma NothingVerifiesEmptyRoot(hash: Hasher, leaf: seq<byte>, proof: seq<string>, leafIndex: int)
    requires NonEmptyDigests(hash)
    ensures !Verifies(hash, leaf, proof, "", leafIndex)
  {
    FoldNonEmpty(hash, hash(leaf), DecodeAll(proof), leafIndex);
  }

  /** Build, prove, verify: every in-range leaf's hex path verifies against
      the hex root of its tree. */
  lemma ProofRoundTrip(hash: Hasher, leaves: seq<seq<byte>>, i: nat)
    requires i < |leaves|
    ensures var bottom := HashLeaves(hash, leaves);
      Verifies(hash, leaves[i], EncodeAll(AuthPath(hash, bottom, i)), Encode(Root(hash, bottom)), i)
  {
    var bottom := HashLeaves(hash, leaves);
    DecodeAllEncodeAll(AuthPath(hash, bottom, i));
    AuthPathFoldsToRoot(hash, bottom, i);
  }

  /** A proof that verifies stops verifying when one of its elements is
      replaced by a string decoding to a different digest (assuming a
      collision-free hash). */
  lemma TamperedProofFails(hash: Hasher, leaf: seq<byte>, proof: seq<string>, rootHex: string, leafIndex: int, k: nat, e: string)
    requires Injective(hash)
    requires k < |proof| && Decode(e) != Decode(proof[k])
    requires Verifies(hash, leaf, proof, rootHex, leafIndex)
    ensures !Verifies(hash, leaf, proof[k := e], rootHex, leafIndex)
  {
    var path := DecodeAll(proof);
    assert DecodeAll(proof[k := e]) == path[k := Decode(e)];
    FoldDetectsTamper(hash, hash(leaf), path, k, Decode(e), leafIndex);
    if Verifies(hash, leaf, proof[k := e], rootHex, leafIndex) {
      EncodeInjective(Fold(hash, hash(leaf), path[k := Decode(e)], leafIndex), Fold(hash, hash(leaf), path, leafIndex));
    }
  }

  /** The converse of tampering: replacing a proof element by any string
      that decodes to the same digest leaves the verdict unchanged. Together
      with TamperedProofFails, tamper resistance holds per digest, not per
      string. */
  lemma SameDigestSameVerdict(hash: Hasher, leaf: seq<byte>, proof: seq<string>, rootHex: string, leafIndex: int, k: nat, e: string)
    requires k < |proof| && Decode(e) == Decode(proof[k])
    ensures Verifies(hash, leaf, proof[k := e], rootHex, leafIndex) == Verifies(hash, leaf, proof, rootHex, leafIndex)
  {
    assert DecodeAll(proof[k := e]) == DecodeAll(proof);
  }

  /** Writing one proof element's hex letters in upper case keeps a
      verifying proof verifying. */
  lemma UpperCaseElementStillVerifies(hash: Hasher, leaf: seq<byte>, proof: seq<string>, rootHex: string, leafIndex: int, k: nat)
    requires k < |proof| && Verifies(hash, leaf, proof, rootHex, leafIndex)
    ensures Verifies(hash, leaf, proof[k := UpperHex(proof[k])], rootHex, leafIndex)
  {
    DecodeIgnoresCase(proof[k]);
    SameDigestSameVerdict(hash, leaf, proof, rootHex, leafIndex, k, UpperHex(proof[k]));
  }

  /** Appending text that does not start with a pair of hex digits to a
      well-formed proof element keeps a verifying proof verifying. */
  lemma TrailingTextStillVerifies(hash: Hasher, leaf: seq<byte>, proof: seq<string>, rootHex: string, leafIndex: int, k: nat, junk: string)
    requires k < |proof| && IsLowerHex(proof[k])
    requires |junk| < 2 || DigitValue(junk[0]) < 0 || DigitValue(junk[1]) < 0
    requires Verifies(hash, leaf, proof, rootHex, leafIndex)
    ensures Verifies(hash, leaf, proof[k := proof[k] + junk], rootHex, leafIndex)
  {
    DecodeStopsAtBadPair(proof[k], junk);
    SameDigestSameVerdict(hash, leaf, proof, rootHex, leafIndex, k, proof[k] + junk);
  }

  /** Leaves and inner nodes are hashed alike, so the concatenation of the
      first two leaf digests passes as a "leaf" at index 0, with the path of
      their parent one level up, against the tree's root. */
  lemma InnerNodeAsLeaf(hash: Hasher, leaves: seq<seq<byte>>)
    requires |leaves| >= 2
    ensures var bottom := HashLeaves(hash, leaves);
      Verifies(hash, bottom[0] + bottom[1], EncodeAll(AuthPath(hash, NextLevel(hash, bottom), 0)),
               Encode(Root(hash, bottom)), 0)
  {
    var bottom := HashLeaves(hash, leaves);
    var up := NextLevel(hash, bottom);
    NextLevelAt(hash, bottom, 0);
    DecodeAllEncodeAll(AuthPath(hash, up, 0));
    AuthPathFoldsToRoot(hash, up, 0);
  }

  class MerkleTree {
    const hash: Hasher
    /** The levels, root level first and hashed leaves last; private in the
        system and set only by the constructor, so a constant here. */
    const levels: seq<seq<Digest>>
    /** The leaves the tree was built from. */
    ghost const leaves: seq<seq<byte>>

    ghost predicate Valid()
      reads this
    {
      levels == Levels(hash, leaves)
    }

    constructor (hash: Hasher, leaves: seq<seq<byte>>)
      ensures this.hash == hash && this.leaves == leaves
      ensures Valid()
      ensures |levels| >= 1 <==> leaves != []
    {
      var built: seq<seq<Digest>> := [];
      if leaves != [] {
        var bottom := HashLeaves(hash, leaves);
        built := [bottom];
        var level := bottom;
        while |level| > 1
          invariant |level| >= 1 && |built| >= 1 && built[0] == level
          invariant Tower(hash, level) + built[1..] == Tower(hash, bottom)
          decreases |level|
        {
          var next := PairUp(hash, level);
          TowerUnshift(hash, level, built[1..], bottom);
          assert ([next] + built)[1..] == built == [level] + built[1..];
          built := [next] + built;
          level := next;
        }
      }
      this.hash := hash;
      this.leaves := leaves;
      this.levels := built;
    }

    /** One pass of the constructor's inner loop: hash adjacent pairs left to
        right, pairing an unpaired last digest with itself. */
    static method PairUp(hash: Hasher, level: seq<Digest>) returns (next: seq<Digest>)
      ensures next == NextLevel(hash, level)
    {
      next := [];
      var i := 0;
      while i < |level|
        invariant i == 2 * |next| && |next| <= (|level| + 1) / 2
        invariant forall k :: 0 <= k < |next| ==> next[k] == ParentAt(hash, level, k)
      {
        var left := level[i];
        var right := if i + 1 < |level| then level[i + 1] else level[i];
        next := next + [hash(left + right)];
        i := i + 2;
      }
      NextLevelByPosition(hash, level, next);
    }

    /** The root as hex, or the empty string for a tree without leaves. */
    function GetRoot(): (root: string)
      reads this
      requires Valid()
      ensures leaves == [] ==> root == ""
      ensures leaves != [] ==> root == Encode(Root(hash, HashLeaves(hash, leaves)))
      ensures |leaves| == 1 ==> root == Encode(hash(leaves[0]))
      ensures NonEmptyDigests(hash) && leaves != [] ==> root != ""
    {
      if |levels| == 0 then ""
      else
        TowerTop(hash, HashLeaves(hash, leaves));
        assert NonEmptyDigests(hash) ==> |Root(hash, HashLeaves(hash, leaves))| > 0 by {
          if NonEmptyDigests(hash) {
            RootNonEmpty(hash, leaves);
          }
        }
        Encode(levels[0][0])
    }

    /** The hex authentication path of leaf `leafIndex`, bottom to top; empty
        for a tree without leaves or an index outside the leaves. */
    method GetProof(leafIndex: int) returns (proof: seq<string>)
      requires Valid()
      ensures !(0 <= leafIndex < |leaves|) ==> proof == []
      ensures 0 <= leafIndex < |leaves| ==>
        proof == EncodeAll(AuthPath(hash, HashLeaves(hash, leaves), leafIndex))
      ensures 0 <= leafIndex < |leaves| ==> |proof| == |levels| - 1
      ensures |leaves| <= 1 ==> proof == []
    {
      var levels := this.levels;
      if |levels| == 0 {
        return [];
      }
      proof := [];
      var index := leafIndex;
      var bottomLevel := levels[|levels| - 1];
      if index < 0 || index >= |bottomLevel| {
        return;
      }
      assert levels == Tower(hash, bottomLevel);
      ghost var full := AuthPath(hash, bottomLevel, leafIndex);
      var lvl := |levels| - 1;
      while lvl > 0
        invariant ProofSoFar(hash, levels, lvl, index, full, proof)
      {
        var level := levels[lvl];
        var siblingIndex := if index % 2 == 0 then index + 1 else index - 1;
        var sibling := if siblingIndex < |level| then level[siblingIndex] else level[index];
        assert ProofSoFar(hash, levels, lvl - 1, index / 2, full, proof + [Encode(sibling)]) by {
          ProofLoopStep(hash, bottomLevel, levels, lvl, index, full, proof);
          assert sibling == Sibling(level, index);
        }
        proof := proof + [Encode(sibling)];
        index := index / 2;
        lvl := lvl - 1;
      }
      assert proof == EncodeAll(full);
      AuthPathLength(hash, bottomLevel, leafIndex);
    }

    /** Recomputes the root from a leaf along a hex proof and compares its hex
        with `rootHex`. */
    static method VerifyProof(hash: Hasher, leaf: seq<byte>, proof: seq<string>, rootHex: string, leafIndex: int)
      returns (ok: bool)
      ensures ok == Verifies(hash, leaf, proof, rootHex, leafIndex)
    {
      var running := hash(leaf);
      var index := leafIndex;
      var k := 0;
      while k < |proof|
        invariant 0 <= k <= |proof|
        invariant Fold(hash, running, DecodeAll(proof)[k..], index) ==
                  Fold(hash, hash(leaf), DecodeAll(proof), leafIndex)
      {
        var sibling := Decode(proof[k]);
        assert DecodeAll(proof)[k..][1..] == DecodeAll(proof)[k + 1..];
        if index % 2 == 0 {
          running := hash(running + sibling);
        } else {
          running := hash(sibling + running);
        }
        index := index / 2;
        k := k + 1;
      }
      ok := Encode(running) == rootHex;
    }
  }
}
