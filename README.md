# Merkle commitment tree — a verified Dafny model

This project models the binary Merkle commitment tree of the Veritasor backend
(`MerkleTree` in `src/services/merkle.ts`). The tree is built once from an
ordered list of leaves. It publishes a root digest, hands out inclusion proofs,
and checks a proof against a root with a static verifier.

- **Build.** Every leaf is hashed to make the bottom level. Adjacent digests are
  then hashed in pairs, left to right, to make the next level. An unpaired last
  digest is hashed with itself. Building stops at a level of one digest, the
  root. Levels are stored root level first.
- **Root.** The root digest as lowercase hex, or `""` for a tree without leaves.
- **Proof.** One sibling digest per level, from the leaves up to the level
  below the root, as hex. The sibling is chosen by the parity of the index: the
  right neighbour for an even index (or the node itself if there is none), the
  left neighbour for an odd one. The index is halved at each level. An empty
  tree or an index outside the leaves gives an empty proof.
- **Verify.** Starting from the hashed leaf, each decoded sibling is hashed on
  the side that the index's parity gives, and the index is halved. The result
  is true exactly when the final digest's hex equals the given root.

Layout:

- `Hex.dfy` (module `Hex`): bytes, the lowercase hex encoder
  (`toString('hex')`), and Node's lenient hex decoder (`Buffer.from(s, 'hex')`).
  The decoder reads digit pairs of either case and stops at the first pair that
  holds a non-digit.
- `MerkleSpec.dfy` (module `MerkleSpec`): the tree as pure recursive functions
  and the lemmas about them. `HashLeaves` is the bottom level of
  src/services/merkle.ts:17-19. `NextLevel` is one pass of the inner loop at
  lines 24-29, and `Tower` is the stored levels that lines 22-32 leave. `Root`
  is the digest at `levels[0][0]` (line 37). `Sibling` is the sibling choice at
  lines 50-51, and `AuthPath` is the list of siblings that lines 48-54 collect.
  `Fold` is the recomputation at lines 62-70.
- `MerkleTree.dfy` (module `Merkle`): the `MerkleTree` class. Its `levels` field
  is private in the system and set only by the constructor, so here it is a
  `const` computed by the constructor's loops. `GetProof` and `VerifyProof` are loops,
  and each is proved equal to its specification function. The predicate
  `Verifies` is the answer of line 71: the hex of `Fold`'s result equals the
  given root.
- `MerkleScenarios.dfy` (module `MerkleScenarios`): the unit test's three
  checks as methods whose postconditions are the test's assertions.

The hash function (SHA-256 in the system) is a parameter `hash: seq<byte> ->
seq<byte>`. Every property holds for any deterministic hash. Only the tamper
properties also assume the hash is injective. That is an idealisation of
collision resistance: no function with a fixed 32-byte output can be injective.
The empty tree's root `""` is distinct from every real root only because SHA-256
never returns an empty digest. The model states this as the assumption
`NonEmptyDigests`. Under it, no non-empty tree has root `""` (`GetRoot`), and
nothing verifies against `""` (`NothingVerifiesEmptyRoot`).

One consequence of the verifier's design is proved as `FoldIndexPeriodic`.
Only the low `|proof|` bits of the index steer the fold. So a proof that
verifies at index `i` also verifies at `i + 2^|proof|`, and at negative indices
with the same low bits. The verifier never checks the index against the number
of leaves.

The root does not fix the leaf list, and the verifier does not fix the level
a "leaf" comes from. Both hold for every hash function, injective or not.

- Because an unpaired digest is paired with itself, a list of an odd number
  (at least three) of leaves has the same root as the same list with its last
  leaf repeated (`RootCollision`).
- Leaves and inner nodes are hashed the same way, with no domain separation.
  So the concatenation of the first two leaf digests verifies at index 0
  against the root, using the path of their parent (`InnerNodeAsLeaf`), though
  it need not be one of the leaves.

Tamper resistance holds per digest, not per string. The decoder accepts hex
letters of either case and ignores everything from the first pair that is
not two hex digits. So replacing a proof element by any string that decodes
to the same digest keeps the verdict (`SameDigestSameVerdict`). Writing an
element in upper case (`UpperCaseElementStillVerifies`) or appending non-hex
text to it (`TrailingTextStillVerifies`) leaves a verifying proof verifying.
With an injective hash, a replacement that decodes to a different digest makes
it fail (`TamperedProofFails`).

## Model

| member | source | states |
|---|---|---|
| `Hex.Digit` | src/services/merkle.ts:37 | each nibble is written as a lowercase hex digit |
| `Hex.DigitValue` | src/services/merkle.ts:63 | a character reads as a nibble exactly when it is a hex digit of either case, otherwise -1; a lowercase digit reads back as the nibble it encodes, and `A`-`F` read as 10-15 like `a`-`f` |
| `Hex.Encode` | src/services/merkle.ts:37 | hex encoding writes two characters per byte |
| `Hex.EncodeIsLowerHex` | src/services/merkle.ts:52 | encoded digests are well-formed lowercase hex (even length, digits 0-9a-f only) |
| `Hex.Decode` | src/services/merkle.ts:63 | the lenient decoder yields at most one byte per two characters |
| `Hex.DecodeEncode` | src/services/merkle.ts:63 | decoding the hex of any byte string gives that byte string back |
| `Hex.DigitPairRoundTrip` | src/services/merkle.ts:63 | two lowercase digits decoded into a byte are re-encoded as the same two digits |
| `Hex.LowerHexTail` | src/services/merkle.ts:63 | dropping the first byte's two digits leaves well-formed lowercase hex |
| `Hex.EncodeDecode` | src/services/merkle.ts:63 | re-encoding the decoding of a well-formed lowercase hex string gives the string back |
| `Hex.EncodeInjective` | src/services/merkle.ts:71 | equal hex strings come from equal digests, so the root comparison on hex is a comparison of digests |
| `Hex.Upcase` | src/services/merkle.ts:63 | upper-casing a hex letter changes the character but not the nibble the decoder reads from it |
| `Hex.DecodeIgnoresCase` | src/services/merkle.ts:63 | the decoder gives the same bytes for a string and its upper-cased form |
| `Hex.DecodeStopsAtBadPair` | src/services/merkle.ts:63 | after well-formed hex, anything from a pair that is not two hex digits on (or a lone trailing character) is ignored by the decoder |
| `Hex.DecodeInjectiveOnLowerHex` | tests/unit/services/merkle.test.ts:28 | two different well-formed lowercase hex strings decode to different bytes |
| `MerkleSpec.NextLevel` | src/services/merkle.ts:24-29 | a level built from a level of n digests has ceil(n/2) digests |
| `MerkleSpec.NextLevelAt` | src/services/merkle.ts:25-28 | element k of the next level is hash(level[2k] ++ level[2k+1]), or hash(level[2k] ++ level[2k]) when 2k is the last position |
| `MerkleSpec.NextLevelByPosition` | src/services/merkle.ts:24-29 | a level holding exactly those parents, by position, is the next level |
| `MerkleSpec.SiblingMatchesBuild` | src/services/merkle.ts:48-54 | the proof's sibling rule, including "use the node itself when the right sibling is missing", hashed in parity order, gives exactly the parent that the build computed (line 27's self-pairing) |
| `MerkleSpec.Tower` | src/services/merkle.ts:22-32 | the stored levels: the first entry is the one-digest root level and the last entry is the hashed leaves |
| `MerkleSpec.TowerUnshift` | src/services/merkle.ts:30 | putting the next level on top of a partial tower (`unshift`) extends it by one level |
| `MerkleSpec.TowerChain` | src/services/merkle.ts:23-31 | every stored level below the root has more than one digest, and the level above it is its next level |
| `MerkleSpec.NextLevelRepeatLast` | src/services/merkle.ts:25-28 | because the last digest of an odd level is paired with itself, repeating it gives the same next level |
| `MerkleSpec.RootCollision` | src/services/merkle.ts:17-31 | a different leaf list (an odd list of at least three with its last leaf repeated) builds the same root, for every hash |
| `MerkleSpec.RootNonEmpty` | src/services/merkle.ts:35-38 | when the hash never returns an empty digest, the root of a non-empty leaf list is not empty |
| `MerkleSpec.TowerTop` | src/services/merkle.ts:36-37 | the top stored level holds exactly the root digest |
| `MerkleSpec.AuthPathLength` | src/services/merkle.ts:48-54 | a proof has one element per stored level except the root level |
| `MerkleSpec.LevelSize` | src/services/merkle.ts:23-31 | the level d steps above N leaves has ceil(N / 2^d) digests, stated as (s-1)·2^d < N <= s·2^d |
| `MerkleSpec.TowerHeight` | src/services/merkle.ts:48 | the number of levels above the leaves, which is the proof length, is ceil(log2 N): N <= 2^h, and 2^(h-1) < N when h > 0 |
| `MerkleSpec.FoldNonEmpty` | src/services/merkle.ts:60-70 | when the hash never returns an empty digest, the verifier's recomputation never yields the empty digest |
| `MerkleSpec.FoldIndexPeriodic` | src/services/merkle.ts:61-69 | the verifier gives the same result for index i and i + 2^(proof length) |
| `MerkleSpec.AuthPathFoldsToRoot` | src/services/merkle.ts:40-72 | folding the hashed leaf along its authentication path, with its index, gives the root |
| `MerkleSpec.FoldSeparates` | src/services/merkle.ts:64-68 | with an injective hash, two different running digests stay different through the same remaining proof |
| `MerkleSpec.FoldDetectsTamper` | src/services/merkle.ts:62-70 | with an injective hash, replacing one proof digest with a different one changes the recomputed root |
| `Merkle.DecodeAllEncodeAll` | src/services/merkle.ts:52 | hex proof elements decode back to the sibling digests they were made from |
| `Merkle.ProofStep` | src/services/merkle.ts:48-54 | one proof-loop step: below the root level, the next proof element is the sibling at the current position, and the rest of the path starts at the parent (index halved) one level up |
| `Merkle.ProofLoopStep` | src/services/merkle.ts:48-54 | one iteration of the proof loop keeps its state: the elements so far encode the start of the leaf's path, and the path from the new position (one level up, index halved) is the rest of it |
| `Merkle.NothingVerifiesEmptyRoot` | src/services/merkle.ts:59-72 | when the hash never returns an empty digest, no leaf, proof and index verify against the empty tree's root `""` |
| `Merkle.ProofRoundTrip` | src/services/merkle.ts:40-72 | for every leaf list and every in-range index, the hex proof verifies against the hex root at that index |
| `Merkle.TamperedProofFails` | tests/unit/services/merkle.test.ts:24-31 | with an injective hash, a verifying proof stops verifying when one element is replaced by a string that decodes to a different digest |
| `Merkle.SameDigestSameVerdict` | src/services/merkle.ts:62-71 | replacing a proof element by a string that decodes to the same digest leaves the verdict unchanged |
| `Merkle.UpperCaseElementStillVerifies` | src/services/merkle.ts:63 | a verifying proof still verifies after one element is written in upper case |
| `Merkle.TrailingTextStillVerifies` | src/services/merkle.ts:63 | a verifying proof still verifies after non-hex text is appended to one well-formed element |
| `Merkle.InnerNodeAsLeaf` | src/services/merkle.ts:59-72 | the concatenation of the first two leaf digests (hashed like a leaf at line 60, like an inner node at line 28) verifies at index 0 against the root with its parent's path |
| `Merkle.MerkleTree.constructor` | src/services/merkle.ts:10-33 | no leaves give no levels; otherwise the stored levels are the full tower over the hashed leaves, root level first |
| `Merkle.MerkleTree.PairUp` | src/services/merkle.ts:24-29 | the inner loop produces exactly the next level |
| `Merkle.MerkleTree.GetRoot` | src/services/merkle.ts:35-38 | `""` for no leaves; otherwise the hex of the root of the hashed leaves, which is not `""` when the hash never returns an empty digest; with one leaf, the hex of that leaf's hash |
| `Merkle.MerkleTree.GetProof` | src/services/merkle.ts:40-57 | empty for a tree without leaves or an index outside `[0, n)`; otherwise the hex of the leaf's authentication path, with `levels.length - 1` elements; empty for a one-leaf tree; changes nothing |
| `Merkle.MerkleTree.VerifyProof` | src/services/merkle.ts:59-72 | true exactly when the hex of the leaf's hash, folded along the decoded proof by index parity, equals `rootHex` |
| `MerkleScenarios.CorruptFirstDigit` | tests/unit/services/merkle.test.ts:28 | a leading lowercase hex digit is replaced by a different digit and the rest is kept; any other string is left unchanged |
| `MerkleScenarios.CorruptionChangesDigest` | tests/unit/services/merkle.test.ts:28 | corrupting a non-empty encoded digest changes the digest it decodes to |
| `MerkleScenarios.BuildTwice` | tests/unit/services/merkle.test.ts:12-15 | two trees built from the same leaves have equal roots |
| `MerkleScenarios.ProveAndVerify` | tests/unit/services/merkle.test.ts:17-22 | build, then `GetProof(i)`, `GetRoot()` and `VerifyProof` at `i` returns true for every in-range `i` |
| `MerkleScenarios.FiveLeafScenario` | tests/unit/services/merkle.test.ts:8-31 | for leaves "a".."e" and index 2 the proof verifies, and with its first element corrupted it does not (injective hash with non-empty output) |

## Left out

- SHA-256 (`crypto.createHash`, src/services/merkle.ts:3-5) is a foreign primitive. It is the parameter `hash`, and no lemma relies on its 32-byte width.
- Collision resistance is modelled as injectivity, and only the tamper lemmas assume it. A real 32-byte hash cannot be injective, so those lemmas state the idealised property.
- UTF-8 conversion of string leaves (`Buffer.from(l)`) and the `string | Buffer` union: leaves are byte sequences.
- A null or undefined leaf list (`!leaves`), and the never-true `!this.levels` checks: Dafny values are never null.
- Fractional, NaN or infinite JavaScript numbers as `leafIndex`: the index is a mathematical integer. For integers, JavaScript's `% 2 === 0` and `Math.floor(i / 2)` agree with Dafny's `%` and `/`, negative values included.
- The default argument `leafIndex = 0` of `verifyProof`: callers of `VerifyProof` pass the index explicitly.
- Hex.Decode: its own contract gives only the length bound. The decoder's leniency (either case, stop at the first bad pair) is stated by `DigitValue`, `DecodeIgnoresCase` and `DecodeStopsAtBadPair`, and the round trips by `DecodeEncode` and `EncodeDecode`.
- The leaf list itself: the source does not store it, and the class keeps it only as a ghost field so that contracts can name it.
