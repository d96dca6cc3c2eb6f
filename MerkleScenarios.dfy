/** The unit test of the tree, as methods whose postconditions are what the
    test asserts: equal roots from two builds, a valid proof for leaf "c" of
    "a".."e", and failure once the proof's first element is corrupted. */
module MerkleScenarios {
  import opened Hex
  import opened MerkleSpec
  import opened Merkle

  /** The test's corruption of a hex proof element: a leading lowercase hex
      digit becomes '1' if it was '0' and '0' otherwise; any other string is
      left as it is. */
  function CorruptFirstDigit(s: string): (t: string)
    ensures |t| == |s| && (|s| > 0 ==> t[1..] == s[1..])
    ensures |s| > 0 && IsLowerHexDigit(s[0]) ==> t != s && IsLowerHexDigit(t[0])
    ensures !(|s| > 0 && IsLowerHexDigit(s[0])) ==> t == s
  {
    if |s| > 0 && IsLowerHexDigit(s[0]) then [if s[0] == '0' then '1' else '0'] + s[1..] else s
  }

  /** Corrupting a non-empty encoded digest yields a string that decodes to a
      different digest. */
  lemma CorruptionChangesDigest(s: string)
    requires IsLowerHex(s) && |s| > 0
    ensures Decode(CorruptFirstDigit(s)) != Decode(s)
  {
    var t := CorruptFirstDigit(s);
    assert IsLowerHex(t) by {
      forall i | 0 <= i < |t| ensures IsLowerHexDigit(t[i]) {
        if i > 0 {
          assert t[i] == t[1..][i - 1] == s[1..][i - 1] == s[i];
        }
      }
    }
    if Decode(t) == Decode(s) {
      DecodeInjectiveOnLowerHex(t, s);
    }
  }

  /** Two trees built from the same leaves have the same root. */
  method BuildTwice(hash: Hasher, leaves: seq<seq<byte>>) returns (root1: string, root2: string)
    ensures root1 == root2
  {
    var t1 := new MerkleTree(hash, leaves);
    var t2 := new MerkleTree(hash, leaves);
    root1 := t1.GetRoot();
    root2 := t2.GetRoot();
  }

  /** Build, prove, verify through the class: every in-range leaf's proof
      verifies against the tree's root. */
  method ProveAndVerify(hash: Hasher, leaves: seq<seq<byte>>, i: int) returns (ok: bool)
    requires 0 <= i < |leaves|
    ensures ok
  {
    var tree := new MerkleTree(hash, leaves);
    var proof := tree.GetProof(i);
    var root := tree.GetRoot();
    ok := MerkleTree.VerifyProof(hash, leaves[i], proof, root, i);
    ProofRoundTrip(hash, leaves, i);
  }

  /** Leaves "a".."e" (their UTF-8 bytes), leaf "c" at index 2: its proof
      verifies, and corrupting the proof's first element makes it fail. */
  method FiveLeafScenario(hash: Hasher) returns (ok: bool, bad: bool)
    requires Injective(hash) && NonEmptyDigests(hash)
    ensures ok && !bad
  {
    var leaves: seq<seq<byte>> := [[97], [98], [99], [100], [101]];
    var tree := new MerkleTree(hash, leaves);
    var index := 2;
    var proof := tree.GetProof(index);
    var root := tree.GetRoot();
    ok := MerkleTree.VerifyProof(hash, leaves[index], proof, root, index);
    ProofRoundTrip(hash, leaves, index);

    var badProof := proof;
    if |badProof| > 0 {
      badProof := badProof[0 := CorruptFirstDigit(badProof[0])];
    }
    bad := MerkleTree.VerifyProof(hash, leaves[index], badProof, root, index);

    var bottom := HashLeaves(hash, leaves);
    assert |Tower(hash, bottom)| > 1;
    assert AuthPath(hash, bottom, index)[0] == bottom[3];
    assert |proof| > 0 && proof[0] == Encode(bottom[3]);
    EncodeIsLowerHex(bottom[3]);
    CorruptionChangesDigest(proof[0]);
    TamperedProofFails(hash, leaves[index], proof, root, index, 0, CorruptFirstDigit(proof[0]));
  }
}
