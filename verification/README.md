# A verified model of rezzy's authenticated sets, filters and tries

rezzy is a Rust library for Matrix room state. This project models the parts of it
that other parts trust without looking: authenticated data structures whose root hash
must mean exactly one set, probabilistic filters whose answers must never be falsely
negative, a proof-of-work verifier, a canonical encoder whose output is signed, and the
fast forms of set computations that must equal the slow ones. The model is written in
Dafny and everything below is proved for all inputs, all runs and all reachable states.

| file | models |
|---|---|
| `CausalTrie`, `CausalSet`, `CausalProofs`, `CausalCompression` | the 256-level sparse Merkle sum trie with its mutable node cache, its proofs and their run-length compression |
| `CuckooCycle` | the 42-cycle verifier |
| `QuotientLayout`, `CountingQuotientFilter` | the counting quotient filter: runs and clusters in a wrapping table |
| `CuckooFilter`, `ProbeFilters`, `Reconciliation` | the cuckoo, remainder-probe and Bloom filters and the reconciliation round that uses them |
| `JsonText`, `CanonicalJson`, `JsonReader`, `CanonicalReading` | Matrix Canonical JSON, and an independent reader that gives every value back |
| `HeaderTree`, `HeaderMeaning` | the RFC 6962 tree over event header fields |
| `HamtNodes`, `HamtCanonical`, `HamtLoading`, `HamtMutation`, `HamtHistory` | the 32-way hash trie: building, loading lazy children, lookup, insertion, removal, whole histories |
| `HamtStore`, `HamtNewNodes`, `HamtBatches`, `HamtCache`, `HamtDelta` | content-addressed storage of its nodes, structural comparison, lazy reload, exact deltas |
| `StateGroups`, `AuthDifference`, `LatticeHash`, `ElementFraming` | state-group chains, the auth difference, the homomorphic state hash |
| `MapHistory` | what a history of changes does to a map |
| `Wrappers`, `Counting`, `Sequences`, `Ring`, `PowersOfTwo`, `Division`, `Bitwise` | shared helpers |

## How the model reads the source

- Hash functions are free constructors or free functions, so that equal hashes mean equal
  contents: collision freedom is built in. Keys of the causal trie are strings of 256 bits,
  SipHash nodes and path digits are arbitrary functions.
- Objects that the source updates in place are classes (`CausalSet`, the four filters,
  `Lattice`, `LiveState`), with ghost logs of what was accepted; loops are loops with
  invariants; pure recursion is functions.
- Rust's `Result` and `Option` are datatypes; panicking calls are `None` or a precondition
  where the source states one. A lazy child that cannot be loaded is an error result, and
  every operation on the trie says exactly when it happens: a lookup or mutation fails on the
  first child of the key's own path that the resolver lacks (`Obstacle`), a walk when anything
  below the node cannot be loaded (`Loadable`), a comparison when something in which the two
  tries differ cannot (`Comparable`). A fully loaded trie, and a trie whose lazy references a
  closed store serves, meet all of these.
- In the trie, a node *represents* a map when its structural hash is that of the map's
  canonical trie. Lookups, mutations and comparisons are proved for every representative,
  however far it is loaded; the depth guards of the source are shown never to fire there.

## Main results

- **Causal trie.** After any run of insertions, extensions and unions the cache holds exactly
  the prefixes of the inserted keys, each with the recursive root and count of the keys below
  it, so the whole cache is a function of the key set alone: the order of insertions is
  irrelevant, and union is commutative, associative and idempotent on whole caches.
  Against the root of a key set, the one accepted inclusion proof of a member is the one the
  generator returns, the one accepted non-inclusion proof of a non-member likewise, and no key
  has both. Compression and decompression are inverse bijections between paths and accepted
  encodings, and a path of any other length than the terminal depth does not survive the round trip.
- **Cuckoo cycle.** The nested index walk accepts exactly the arrays whose edges form one
  simple cycle: a connected graph in which every touched node has two edge ends. The xor
  precheck never rejects a cycle.
- **Filters.** The counting quotient filter answers exactly for hashes modulo its slots times
  the remainder range, through wrap-around and shifting; the cuckoo filter relocates until a
  bucket has room, uses its stash only after 500 relocations that all met full buckets, loses
  nothing while insertions succeed, and when one fails the model names the one fingerprint that
  is lost; the bits of the Bloom filter are exactly the probe positions of what it accepted; the
  reconciliation round returns exactly the symmetric difference.
- **Canonical JSON.** A reader written from RFC 8259 alone gives back every value that the encoder
  writes, so the encoding is injective; keys ascend by their bytes; it fails exactly on the values
  that contain a number without canonical text.
- **RFC 6962 tree.** Generated paths verify, an accepted path for a leaf is that leaf's audit
  path, and two headers have the same root exactly when they have the same fields.
- **Hash trie.** Every history of insertions and removals whose first root can be loaded, through
  splits and cascading collapses, runs to its end unless one of its maps fits no trie, and ends in
  the canonical trie of the final map, so equal hashes mean equal maps; at every step the store
  holds every node of the published root, and only nodes of that root were written; the structural
  delta lists exactly the entries in which two maps differ, each once, and needs nothing loaded
  where the tries agree.
- **Storage.** `collect_new_nodes` pushes exactly the nodes that the old trie lacks at the same
  path; whatever number of layers stays resident, reloading the rest rebuilds the trie.

## Model

| member | source | states |
|---|---|---|
| `CausalTrie.OracleRoot` | src/merkle.rs:1473-1517 | the recursive oracle over a key list, duplicates and order aside, computes the reference root and count of the key set |
| `CausalTrie.OracleAgrees` | src/merkle.rs:1473-1517 | the same at every depth, for lists that share a prefix |
| `CausalSets.BuildEmptyTable` | src/merkle.rs:694-704 | bottom up: the empty leaf at depth 256 and above it each depth's node over two empty children; so the table holds the recursive hash of the empty subtree of every depth |
| `CausalSets.CausalSet.Empty` | src/merkle.rs:776-781 | the empty cache is the cache of the empty key set |
| `CausalSets.CausalSet.InsertMut` | src/merkle.rs:788-855 | adds exactly the key, reports whether it was new, and keeps the cache equal to the prefixes of the keys with their recursive roots and counts |
| `CausalSets.CausalSet.WalkDown` | src/merkle.rs:794-813 | the down loop adds every prefix of the key to the cache, and nothing else, with the leaf at the bottom |
| `CausalSets.CausalSet.WalkUp` | src/merkle.rs:815-853 | the up loop restores the recursive root and count on every prefix of the key |
| `CausalSets.AscentStep` | src/merkle.rs:815-853 | one step of the up loop moves the depth below which the cache is right by one |
| `CausalSets.CausalSet.Extend` | src/merkle.rs:859-865 | adds exactly the given keys |
| `CausalSets.CausalSet.Union` | src/merkle.rs:881-888 | a new valid set of both sets' keys |
| `CausalSets.CacheDetermined` | src/merkle.rs:733-742 | two valid caches of the same key set are equal, whatever runs produced them |
| `CausalSets.UnionCommutes` | src/merkle.rs:881-888 | both orders of a union give the same cache |
| `CausalSets.UnionAssociates` | src/merkle.rs:881-888 | both groupings of three sets give the same cache |
| `CausalSets.UnionAbsorbs` | src/merkle.rs:881-888 | uniting with a part, or with the set itself, leaves the cache as it was |
| `CausalSets.CausalSet.Root` | src/merkle.rs:904-913 | the cached root is the recursive root of the key set |
| `CausalSets.CausalSet.InclusionProof` | src/merkle.rs:1287-1304 | a proof exactly for members: the siblings along the key, the root and the number of keys |
| `CausalSets.CausalSet.SiblingStep` | src/merkle.rs:1264-1280 | the cached or default sibling is the recursive root and count of the sibling subtree |
| `CausalSets.CausalSet.NonInclusionProof` | src/merkle.rs:1313-1346 | a proof exactly for non-members, ending at the first empty subtree on the key's path |
| `CausalProofs.VerifyCausalPath` | src/merkle.rs:1424-1460 | accepts exactly when climbing the siblings, with checked count sums, ends at the claimed root and count |
| `CausalProofs.ClimbTrails` | src/merkle.rs:1424-1460 | a climb succeeds exactly when there is a trail of nodes from the start to the claimed root, each hashed with its sibling under the parent's depth on the side the key's bit tells, whose counts add up without overflow |
| `CausalProofs.VerifyCausalInclusion` | src/merkle.rs:1353-1360 | full length and a climb from the key's leaf with count one |
| `CausalProofs.VerifyCausalNonInclusion` | src/merkle.rs:1366-1401 | depth in range, first sibling not empty, and a climb from the empty subtree |
| `CausalProofs.ClimbSound` | src/merkle.rs:1424-1460 | a climb that reaches the root of a key set started from that set's subtree on the key's path and used its true siblings |
| `CausalProofs.ClimbComplete` | src/merkle.rs:1424-1460 | climbing the true siblings reaches the root and the number of keys without overflow |
| `CausalProofs.InclusionExact` | src/merkle.rs:1353-1360 | an inclusion proof is accepted if and only if the key is a member and path and count are the generator's |
| `CausalProofs.NonInclusionExact` | src/merkle.rs:1366-1401 | a non-inclusion proof is accepted if and only if the key is absent and terminal depth, path and count are the generator's |
| `CausalProofs.InclusionSound` | src/merkle.rs:1353-1360 | soundness of inclusion for key sets of any size |
| `CausalProofs.NonInclusionSound` | src/merkle.rs:1366-1401 | soundness of non-inclusion for key sets of any size |
| `CausalProofs.NeverBoth` | src/merkle.rs:1353-1401 | no root of a key set admits both kinds of proof for one key |
| `CausalProofs.SubtreeCount` | src/merkle.rs:1403-1419 | the sum kept in each node is the number of keys below it, up to the largest 64-bit count |
| `CausalProofs.TerminalExists` | src/merkle.rs:1313-1346 | every absent key has a terminal depth |
| `CausalCompression.CompressCausalPath` | src/merkle.rs:1039-1085 | the loop writes the run-length encoding of any path, with depths that stop at 0 and lengths that stop at 16 bits |
| `CausalCompression.DecompressCausalPath` | src/merkle.rs:1098-1193 | the loop accepts or rejects, with the same error, as the recursive decoder |
| `CausalCompression.CompressedPathReturns` | src/merkle.rs:1039-1193 | decompressing a compressed path of any length returns the path |
| `CausalCompression.AcceptedEncodingIsCanonical` | src/merkle.rs:1098-1193 | every accepted encoding is the compression of the path it decodes to |
| `CausalCompression.ReturnsExactly` | src/merkle.rs:1039-1193 | for every terminal depth and every path: compressing and decompressing returns the path if its length is the terminal depth, and is an error otherwise |
| `CausalCompression.DecodeFaults` | src/merkle.rs:1098-1193 | the decompressor reports the first fault there is, in the order of the entries, with the error that names it, and succeeds exactly when there is none |
| `CausalCompression.CompressedIsEncoded` | src/merkle.rs:1039-1085 | on paths of the right length the compressor writes the canonical encoding |
| `CausalCompression.VerifyCausalInclusionCompressed` | src/merkle.rs:1202-1210 | the compressed verifier decodes, then decides as the plain one |
| `CausalCompression.VerifyCausalNonInclusionCompressed` | src/merkle.rs:1220-1235 | the same for non-inclusion, with the depth error |
| `CausalCompression.CompressedInclusionExact` | src/merkle.rs:1202-1210 | one compressed inclusion proof is accepted per member and none otherwise |
| `CausalCompression.CompressedNonInclusionExact` | src/merkle.rs:1220-1235 | one compressed non-inclusion proof is accepted per non-member and none otherwise |
| `CuckooCycle.VerifyCycleUvs` | src/cuckoo_verify.rs:218-255 | accepts if and only if the edges form a single cycle; each error has its witness: a node with three ends, a node with one, a loop that is too short |
| `CuckooCycle.ScanPartition` | src/cuckoo_verify.rs:222-239 | one round through the partition finds the only mate of an end, or that there is none, or two |
| `CuckooCycle.NextSamePartitionIndex` | src/cuckoo_verify.rs:276-281 | stays in the partition and wraps at the end |
| `CuckooCycle.WalkNoRepeat` | src/cuckoo_verify.rs:218-255 | before it returns to index 0 the walk visits no index twice |
| `CuckooCycle.WalkNoFold` | src/cuckoo_verify.rs:218-255 | the walk never visits both ends of an edge |
| `CuckooCycle.WalkBounded` | src/cuckoo_verify.rs:218-255 | it therefore takes at most as many steps as there are edges, so the step guard never fires |
| `CuckooCycle.LoopDecides` | src/cuckoo_verify.rs:218-255 | a closed walk is a single cycle through everything exactly when its length is the number of edges |
| `CuckooCycle.TwoRegularXor` | src/cuckoo_verify.rs:195-216 | when every node has two ends, the endpoints of each partition xor to zero |
| `CuckooCycle.AllTwiceXor` | src/cuckoo_verify.rs:195-216 | a list in which every value occurs twice xors to zero, whatever the order |
| `CuckooCycle.ValidateSolutionShape` | src/cuckoo_verify.rs:257-274 | accepts exactly 42 ascending edges within the mask; each error says what failed |
| `CuckooCycle.BuildEnds` | src/cuckoo_verify.rs:195-216 | the filled array holds both ends of every edge and the accumulators their xors |
| `CuckooCycle.VerifyEdges` | src/cuckoo_verify.rs:195-216 | accepts exactly the well-shaped solutions whose ends form a single cycle: the xor precheck rejects no cycle |
| `QuotientFilter.CountingQuotientFilter.constructor` | benches/math/filters.rs:412-427 | an empty valid filter with the least power of two of slots, two at least, that capacity fills to three quarters at most |
| `QuotientFilter.CountingQuotientFilter.SplitHash` | benches/math/filters.rs:441-447 | quotient and remainder in range; together, as quotient + slots * remainder, they are the hash modulo slots times 2^remainder bits |
| `QuotientFilter.CountingQuotientFilter.ClusterStart` | benches/math/filters.rs:449-455 | the start of the cluster around a used slot |
| `QuotientFilter.CountingQuotientFilter.RunStart` | benches/math/filters.rs:457-470 | the first slot, at or after the home slot, whose entry does not belong to an earlier quotient |
| `QuotientFilter.CountingQuotientFilter.FindRemainder` | benches/math/filters.rs:472-488 | finds a fingerprint exactly when it was accepted, at the slot that stores it |
| `QuotientFilter.CountingQuotientFilter.ShiftRightFrom` | benches/math/filters.rs:490-505 | moves the stretch up to the next empty slot by one, across the wrap, in all four tables |
| `QuotientFilter.CountingQuotientFilter.Insert` | benches/math/filters.rs:507-542 | accepted exactly when an accepted hash agrees modulo slots times 2^remainder bits or the filter is below capacity; keeps the whole representation |
| `QuotientFilter.CountingQuotientFilter.Contains` | benches/math/filters.rs:544-548 | true exactly when some accepted hash agrees with this one modulo slots times 2^remainder bits |
| `QuotientFilter.CountingQuotientFilter.Count` | benches/math/filters.rs:550-554 | the number of accepted hashes that agree so, capped at 65535 |
| `QuotientFilter.CountingQuotientFilter.Len` | benches/math/filters.rs:556-558 | the number of distinct residues of the accepted hashes, within capacity |
| `QuotientFilter.RepresentsInsert` | benches/math/filters.rs:507-542 | shifting and writing one entry keeps every other entry findable, once, with its count |
| `QuotientFilter.ConsistentInsert` | benches/math/filters.rs:507-542 | the three bitmaps mark the new layout |
| `QuotientFilter.NotInRun` | benches/math/filters.rs:472-488 | scanning a whole run without a match proves absence from the table |
| `QuotientLayout.LinearExists` | benches/math/filters.rs:412-435 | a table that is not full can be read in ascending order of quotients from some slot, through the wrap |
| `QuotientLayout.InsertKeepsLags` | benches/math/filters.rs:490-542 | insertion keeps every entry between its home and the next empty slot |
| `QuotientLayout.InsertFlagsAt` | benches/math/filters.rs:490-542 | which slots become shifted or continuations |
| `QuotientLayout.InsertRuns` | benches/math/filters.rs:507-542 | exactly the inserted quotient gains a run |
| `CuckooFilters.Shape.AltInvolution` | benches/math/filters.rs:94-97 | on a power-of-two table the alternate bucket of the alternate bucket is the bucket |
| `CuckooFilters.Shape.AltDistance` | benches/math/filters.rs:94-97 | the two homes of a fingerprint differ, as xor, by the fingerprint's own hash |
| `CuckooFilters.Shape.FingerprintBits` | benches/math/filters.rs:81-84 | a fingerprint is the bits of the hash above the lowest sixteen, cut to its width, with 1 in place of 0 |
| `CuckooFilters.CuckooFilter.constructor` | benches/math/filters.rs:53-79 | an empty valid filter whose table is the least power of two of buckets with a twentieth to spare |
| `CuckooFilters.KickKeeps` | benches/math/filters.rs:99-147 | one eviction: every value is still in the table or is in hand at its other home |
| `CuckooFilters.FilledPut` | benches/math/filters.rs:99-147 | a write changes the number of stored fingerprints by one or none |
| `CuckooFilters.CuckooFilter.Relocate` | benches/math/filters.rs:127-129 | one relocation: the hand goes into the given slot of its bucket, what was there is lifted out and due in its other home, no other slot changes |
| `CuckooFilters.CuckooFilter.Kick` | benches/math/filters.rs:124-137 | relocation i uses slot i modulo the bucket size and every bucket met before the last is full; it ends at the first bucket with a free slot, whose first free slot takes the hand, or after exactly 500 relocations that all met full buckets |
| `CuckooFilters.CuckooFilter.KickOrStash` | benches/math/filters.rs:124-146 | the stash is used only after 500 relocations that all met full buckets, and refusal needs a full stash as well; nothing accepted is lost unless the call fails, and then the fingerprint in hand is the one lost; stored, stashed and lost fingerprints add up |
| `CuckooFilters.CuckooFilter.Insert` | benches/math/filters.rs:99-147 | below capacity: the first free slot of the primary bucket, else of the alternate one, else the relocations and the stash as stated for them; keeps every accepted value findable; fails only at capacity, changing nothing, or with a full stash, losing one fingerprint |
| `CuckooFilters.CuckooFilter.Contains` | benches/math/filters.rs:149-162 | true exactly when the fingerprint is in one of its homes or in the stash; no false negatives while no insertion failed; a hit is the fingerprint of some offered value |
| `ProbeFilters.RemainderProbeFilter.Find` | benches/math/filters.rs:304-345 | linear probing ends at the remainder or at the first free slot, with the remainder in no slot before it |
| `ProbeFilters.RemainderProbeFilter.RemainderAgree` | benches/math/filters.rs:297-302 | two hashes have one remainder if and only if their bits above the lowest remainder bit agree |
| `ProbeFilters.RemainderProbeFilter.HomeSlotMeans` | benches/math/filters.rs:297-302 | the hash is its upper part, then rounds of the table, then the home slot |
| `ProbeFilters.RemainderProbeFilter.Insert` | benches/math/filters.rs:304-329 | accepted exactly below capacity; a remainder not reached goes into the first free slot and nothing else changes; every accepted value stays reachable, and every occupied slot holds the remainder of an accepted hash whose home leads there |
| `ProbeFilters.RemainderProbeFilter.Contains` | benches/math/filters.rs:331-345 | no false negatives; a hit agrees with some accepted hash in the bits above the lowest remainder bit |
| `ProbeFilters.BloomFilter.Insert` | benches/math/filters.rs:623-633 | accepted exactly below capacity; the set bits stay exactly the probe positions of the accepted hashes |
| `ProbeFilters.BloomFilter.Contains` | benches/math/filters.rs:635-643 | true exactly when accepted hashes account for every probe position, so no false negatives |
| `Reconciliation.BuildFilter` | benches/math/invertible_filter.rs:310-345 | a built filter holds all elements; only the cuckoo filter can fail, and only with more elements than a bucket and the stash hold |
| `Reconciliation.FilterContains` | benches/math/invertible_filter.rs:347-354 | each kind admits exactly what its lookup rule says, and whatever the kind an element held is reported |
| `Reconciliation.ProbeRemote` | benches/math/invertible_filter.rs:244-253 | splits the remote set by what the filter admits; a value the filter denies is in no local set |
| `Reconciliation.BinarySearch` | benches/math/invertible_filter.rs:263-272 | decides membership in an ascending list |
| `Reconciliation.Reconcile` | benches/math/invertible_filter.rs:241-276 | one round computes exactly the symmetric difference, each value once, whatever the false positives |
| `JsonReader.ReadsUtf8` | src/merkle.rs:604-607 | a UTF-8 reader written from RFC 3629 gives back the character and what follows it |
| `JsonReader.ReadsBytes` | src/merkle.rs:551-552 | and the whole string from the bytes by which keys are compared |
| `JsonReader.ReadsEscaped` | src/merkle.rs:588-608 | a character reader with the escape table of RFC 8259, section 7, gives back each written character |
| `JsonReader.EscapesShortest` | src/merkle.rs:588-608 | what may stand for itself does, the seven short escapes are used where there is one, and only other control characters are written as six bytes |
| `JsonReader.ReadsStringBody` | src/merkle.rs:584-610 | reading up to the closing quote gives back the string, whatever follows |
| `JsonReader.ReadsInt` | src/merkle.rs:568-574 | reading decimal digits gives back the integer, when no digit follows |
| `CanonicalReading.ReadsText` | src/merkle.rs:533-566 | a JSON reader that shares nothing with the encoder reads the text of every encodable value back as that value, whatever delimiter follows |
| `CanonicalReading.TextUnique` | src/merkle.rs:533-566 | texts of encodable values with arbitrary continuations are equal only for equal values and continuations |
| `CanonicalReading.CanonicalInjective` | src/merkle.rs:169-173 | two encodable values with the same canonical bytes are equal |
| `CanonicalJson.KeyOrder` | src/merkle.rs:551-552 | one key precedes another if and only if its bytes are a proper prefix of the other's, or are smaller at the first difference |
| `CanonicalJson.AscendingListingUnique` | src/merkle.rs:550-563 | a key set has one ascending listing |
| `CanonicalJson.ErrorFree` | src/merkle.rs:533-582 | encoding fails exactly on values that contain, at any depth, a number outside the canonical range or a fraction |
| `CanonicalJson.ErrorMeans` | src/merkle.rs:568-582 | a reported error is that of a number in the value: an integer out of range, or no integer |
| `CanonicalJson.FirstBadItem` | src/merkle.rs:540-549 | an array's error is that of its first bad item |
| `CanonicalJson.FirstBadMember` | src/merkle.rs:550-563 | an object's error is that of its first bad member, in the order of the keys |
| `CanonicalJson.AppendString` | src/merkle.rs:584-608 | appends the string text |
| `CanonicalJson.SortKeys` | src/merkle.rs:550-563 | every key once, ascending, which makes it the one such listing |
| `CanonicalJson.AppendCanonicalValue` | src/merkle.rs:533-566 | appends the canonical text, or reports the first error in document order |
| `CanonicalJson.CanonicalJson` | src/merkle.rs:169-173 | succeeds exactly on encodable values, with their text; an error is that of a number in the value |
| `HeaderTree.LargestPowerOfTwoLessThan` | src/merkle.rs:494-500 | the split point: the power of two k with k < n <= 2k |
| `HeaderTree.VerifyLeafPath` | src/merkle.rs:388-397 | accepts exactly when the recomputed root is the given one |
| `HeaderMeaning.RecomputeClimbs` | src/merkle.rs:388-397 | the recomputed root ends the way up from the leaf on which each node is hashed with its sibling on the marked side |
| `HeaderTree.PathLeadsToRoot` | src/merkle.rs:402-449 | the root beside the path is the Merkle root, and the path leads from the leaf to it |
| `HeaderMeaning.RootSplits` | src/merkle.rs:480-500 | section 2.1 of RFC 6962: one leaf is its own root, and n leaves split at the power of two k with k < n <= 2k, left part first |
| `HeaderMeaning.PathSplits` | src/merkle.rs:402-449 | section 2.1.1 of RFC 6962: the path in the half that holds the leaf, then the other half's root, marked with its side |
| `HeaderTree.AcceptedPathIsAuditPath` | src/merkle.rs:388-449 | an accepted path of a leaf hash is the audit path of an equal leaf of the tree |
| `HeaderTree.LeavesExact` | src/merkle.rs:451-473 | leaves exist exactly for valid names, encodable values and distinct names |
| `HeaderTree.LeavesList` | src/merkle.rs:451-463 | they are those of the fields, ascending by name |
| `HeaderMeaning.LeavesErrors` | src/merkle.rs:451-473 | an error is that of the first bad field, in the order given, or else names the least repeated field name |
| `HeaderMeaning.RootAndPathErrors` | src/merkle.rs:371-383 | there is no root only for no fields, and no path only for names of no field |
| `HeaderTree.DuplicatesAreNeighbours` | src/merkle.rs:451-463 | in the sorted list comparing neighbours finds every repeated name |
| `HeaderTree.LeafPreimageInjective` | src/merkle.rs:506-531 | for valid names the hashed bytes determine name and value text |
| `HeaderTree.ZeroIsAmbiguous` | src/merkle.rs:506-514 | without the ban on zero characters a long name could pass for a short one with more text |
| `HeaderTree.RootPermutationInvariant` | src/merkle.rs:272-275 | permuting the fields changes neither success nor root |
| `HeaderTree.FieldProofComplete` | src/merkle.rs:371-383 | every field has a path, and it verifies against the root |
| `HeaderTree.FieldProofSound` | src/merkle.rs:371-397 | an accepted path for a field's leaf proves that the field is in the header |
| `HeaderTree.RootBinds` | src/merkle.rs:272-275 | two headers have the same root if and only if they have the same fields, whatever the order |
| `HamtNodes.PackUpdate` | src/hamt/mod.rs:591-633 | changing one slot is one splice in each dense array, at the position the bit counts give |
| `HamtNodes.EditedHash` | src/hamt/mod.rs:898-973 | a path copy commits to exactly the edited slots |
| `HamtCanonical.BuildNode` | src/hamt/mod.rs:668-734 | builds the canonical trie of the entries, and fails exactly on repeated keys or keys that share all digits, at the last depth, with the size of such a group |
| `HamtCanonical.CrowdedMeans` | src/hamt/mod.rs:668-734 | a collision reports the size of a group of two or more entries that no digit tells apart |
| `HamtCanonical.MapOfLeads` | src/hamt/mod.rs:668-734 | the map of a list of entries holds the last value of each key |
| `HamtMutation.Search` | src/hamt/mod.rs:327-357 | the iterative lookup in a partly loaded trie reads the represented map, and fails exactly on the first child of the key's path that cannot be loaded |
| `HamtMutation.InsertNode` | src/hamt/mod.rs:1052-1118 | the new node represents the updated map, the displaced value is the old one, the emitted nodes are its own and publish it; fails exactly when a child on the key's path cannot be loaded or, failing that, when no trie can hold the map |
| `HamtMutation.InsertBelow` | src/hamt/mod.rs:1173-1188 | the same where the key's slot holds a child |
| `HamtMutation.ObstacleUnloadable` | src/hamt/mod.rs:935-946 | a failed path ends at a hash the resolver lacks; where everything can be loaded no path fails |
| `HamtLoading.ServedLoadable` | src/hamt/mod.rs:935-946 | a resolver that serves a closed store can load everything below a node whose lazy references are in the store |
| `HamtLoading.ResolvedLoadable` | benches/common/mod.rs:240-244 | a fully loaded trie needs no resolver |
| `HamtMutation.SplitLeaf` | src/hamt/mod.rs:1120-1172 | two entries of one slot move into a new child, however deep they part |
| `HamtMutation.FinalizeAfterRemoval` | src/hamt/mod.rs:1426-1456 | collapses a node exactly when at most one entry is left |
| `HamtMutation.RemoveNode` | src/hamt/mod.rs:1534-1631 | what is left stands for the map without the key, collapsed as building it would, and the emitted nodes are its own; an absent key changes and emits nothing; fails exactly when a child on the key's path cannot be loaded |
| `HamtMutation.RemoveBelow` | src/hamt/mod.rs:1589-1630 | a child's remains go back into the slot; a child never becomes empty |
| `HamtMutation.RemoveSpine` | src/hamt/mod.rs:1464-1487 | the root of the map without the key, with the same exact failure condition |
| `HamtMutation.FinalizeRemoveRoot` | src/hamt/mod.rs:1633-1660 | the remains become a root node, also when one entry or none is left |
| `HamtMutation.EmitEdit` | src/hamt/mod.rs:922-973 | every emitted node lies in the trie of the new node |
| `HamtMutation.PublishEdit` | src/hamt/mod.rs:948-973 | an emitted copy keeps the store closed under children |
| `HamtHistory.PersistMutation` | src/hamt/mod.rs:1731-1785 | with the created nodes written, everything below the new root is stored, and all of them belong to it; an unchanged root creates none; fails exactly when a child on the key's path cannot be loaded or no trie holds the map |
| `HamtHistory.PersistChain` | src/hamt/mod.rs:1361-1395 | every published root of a history represents the map at its step and is completely stored by then; a history whose first root can be loaded, or whose resolver serves the store, ends unless one of its maps fits no trie |
| `MapHistory.AfterLeads` | src/hamt/mod.rs:1361-1395 | in the map after a history each key shows its last change, or holds its first value when it had none |
| `MapHistory.LeadsUnique` | src/hamt/mod.rs:1361-1395 | which decides that map |
| `HamtHistory.WrittenMeans` | src/hamt/mod.rs:1361-1395 | what is written is what was there and the nodes of the steps |
| `HamtHistory.SameHashSameMap` | src/hamt/mod.rs:1489-1500 | two tries have the same hash if and only if they stand for the same map, whatever histories led to them |
| `HamtHistory.LoadedIsCanonical` | src/hamt/mod.rs:1489-1500 | a fully loaded trie is node for node what building its map gives |
| `HamtStore.CollectAllNodes` | benches/common/mod.rs:125-132 | pushes the node and all loaded descendants, parents first |
| `HamtStore.AllNodesClosed` | src/hamt/mod.rs:926-933 | emitting a whole new subtree leaves nothing of it out |
| `HamtNewNodes.CollectNewNodes` | benches/common/mod.rs:84-121 | pushes exactly the nodes of the new trie that the old one does not have at the same path |
| `HamtNewNodes.CollectSlot` | benches/common/mod.rs:96-120 | one slot of the lockstep walk, with counters at the bitmap positions |
| `HamtNewNodes.FreshNodesSuffice` | benches/common/mod.rs:76-83 | a store of the old trie with these nodes added holds the new trie |
| `HamtBatches.PersistBatches` | benches/db/persistence.rs:183-198 | over every run of batches each batch's root is the canonical trie of the map so far and is completely stored |
| `HamtBatches.StoredMeans` | benches/db/persistence.rs:183-198 | what the store holds is what was there and the nodes of the batches |
| `HamtCache.StoreAll` | benches/db/hamt_delta.rs:39-49 | adds exactly the loaded nodes, and keeps a closed store closed in spite of the early return |
| `HamtCache.AlreadyStored` | benches/db/hamt_delta.rs:40-42 | a closed store that has a node has everything below it |
| `HamtCache.ReloadRebuilds` | benches/db/hamt_delta.rs:52-88 | for every number of resident layers, loading the rest from the store rebuilds the original trie |
| `HamtCache.LayersDepth` | benches/db/hamt_delta.rs:69-102 | the loaded depth is that number of layers and the top, or all of a shallower trie |
| `HamtCache.LayersExact` | benches/db/hamt_delta.rs:69-88 | a path stays loaded exactly when it was and has at most that many steps |
| `HamtCache.DepthReached` | benches/db/hamt_delta.rs:90-102 | the depth counts the nodes of a longest loaded path |
| `HamtDelta.BuildEntries` | src/hamt/delta.rs:680-697 | a canonical trie holds each entry of its map once |
| `HamtDelta.WalkSubtree` | src/hamt/delta.rs:680-697 | visits exactly the entries of the subtree, and succeeds exactly when everything below can be loaded |
| `HamtDelta.DiffLeafSubtree` | src/hamt/delta.rs:298-339 | a leaf facing a subtree: matching entries cancel, all others are reported; succeeds exactly when the subtree can be loaded |
| `HamtDelta.DiffNodes` | src/hamt/delta.rs:146-276 | the added and removed lists are exactly the two differences of the maps, each entry once; succeeds exactly when everything in which the tries differ can be loaded |
| `HamtDelta.LoadableComparable` | src/hamt/delta.rs:376-413 | two tries that can be loaded throughout can be compared |
| `HamtDelta.DeltaPatches` | src/hamt/delta.rs:137-145 | taking out the removed entries and putting in the added ones turns one map into the other |
| `StateGroups.ChainLookup` | benches/db/state_groups.rs:73-88 | reads the state of the group, visiting exactly the groups back to the first delta of the key or snapshot, never past a snapshot |
| `StateGroups.WriteUnbounded` | benches/db/state_groups.rs:155-163 | every group stands for the flat map after as many mutations |
| `StateGroups.WriteBounded` | benches/db/state_groups.rs:166-181 | the same, with at most SNAPSHOT_EVERY groups to a snapshot from any group |
| `StateGroups.GroupLeads` | benches/db/state_groups.rs:155-181 | in group i each key has the value of its last mutation up to there, or its first value |
| `AuthDifference.PlainDifference` | benches/state/auth_difference_mtxdb.rs:208-248 | exactly the events that some fork reaches, as an entry or an entry's auth ancestor, and some other fork does not; fails exactly on an empty state map |
| `AuthDifference.MergedDifference` | benches/state/auth_difference_mtxdb.rs:260-307 | the same set of events, though agreed closures are read once |
| `AuthDifference.MergedIsDifference` | benches/state/auth_difference_mtxdb.rs:250-259 | subtracting the agreed part after merging the conflicted parts changes nothing |
| `AuthDifference.ConflictsDiffer` | benches/state/auth_difference_mtxdb.rs:201-202 | a state event that some other fork does not reach is in the difference, and with it each auth ancestor which that fork does not reach |
| `AuthDifference.AgreedNeverDiffer` | benches/state/auth_difference_mtxdb.rs:250-259 | an entry that all forks share is never in it, nor are its auth ancestors |
| `LatticeHash.TotalWithout` | src/incremental/lthash/lattice.rs:27-31 | a map's lane sum does not depend on the order of its entries |
| `LatticeHash.BuildLattice` | benches/math/lthash_backends.rs:589-595 | the lanes of any list of entries as it stands, modulo 65536; for every listing of a map, in any order, the map's lanes |
| `LatticeHash.ListingTotal` | benches/math/lthash_backends.rs:589-595 | every listing of a map has the same lane sums |
| `LatticeHash.Lattice.AddSeed` | src/incremental/lthash/lattice.rs:121-123 | wrapping addition in every lane |
| `LatticeHash.Lattice.SubSeed` | src/incremental/lthash/lattice.rs:127-129 | wrapping subtraction in every lane |
| `LatticeHash.LiveState.ApplyOp` | benches/math/lthash_backends.rs:598-619 | after a put the key holds the new value and after a removal none, every other key what it held, and the lanes are those of the new map |
| `LatticeHash.LiveState.Run` | benches/math/lthash_backends.rs:542-569 | after every run each key holds what its last operation left, or its first value, and the lanes are those of the map |
| `LatticeHash.LiveState.Rebuilt` | src/state/lthash.rs:16-29 | after any run, rebuilding from any listing of the current map gives the running lanes |
| `ElementFraming.TruncateToLimit` | benches/math/lthash_backends.rs:231-238 | the longest prefix within 65535 bytes that ends between characters; the whole string exactly when it fits |
| `ElementFraming.TruncatesText` | benches/math/lthash_backends.rs:231-238 | of a string in UTF-8 it is the bytes of the longest prefix of characters that fits |
| `ElementFraming.BoundaryEndsPrefix` | benches/math/lthash_backends.rs:231-238 | the boundaries are the ends of the string's prefixes |
| `ElementFraming.FrameElement` | benches/math/lthash_backends.rs:243-261 | the buffer is the tag, then each truncated field after its length in two bytes, low byte first, then the id |
| `ElementFraming.SameBytes` | benches/math/lthash_backends.rs:212-261 | two elements are framed alike if and only if they agree up to truncation, so within the limit the framing is injective |

## Left out

- SHA-256, SipHash, BLAKE3 and every other hash: free constructors or free functions. The byte packing of
  hash preimages, of 256-bit keys and of the trie's path digits is not modelled.
- Filter sizing from a false-positive rate, and the rates themselves: sizes are parameters.
- The word packing of bitmaps: a bitmap is a sequence of booleans, a set of short ids a set.
- Reconciliation.BuildFilter: for a cuckoo filter gives a size below which building cannot fail, not the exact element lists that fail; those depend on the hash.
- CausalProofs.InclusionExact: needs at most 2^64 - 1 keys, as the source does; the soundness half does not.
- CausalProofs.NonInclusionExact: the same bound, for the same reason.
- HamtDelta.DiffNodes: the two output lists are returned rather than appended to the caller's, and the four passes over
  the slot classes share one loop body.
- HamtMutation.InsertNode: takes a node above the depth limit only; the source's guard at the limit is shown unreachable.
- HamtMutation.RemoveBelow: the source's code for a child that becomes empty is shown unreachable and not written out.
- HamtStore.CollectAllNodes: returns the extended list instead of mutating it, as do the other collectors.
- HamtNewNodes.CollectNewNodes: covers fully loaded tries, which is what the source's comment promises it is given.
- The trie's node codec, garbage collection, audits, `persist_mutations`, `diff_node_hashes` and level-wise descent.
- State resolution, auth rules, event parsing, signing, PinSketch and Golomb-coded sets.
- The writers for minted keys in the cuckoo verifier (JSON string and base64 output) and its minting checks.
- Storage engines, disk access, timing, printing and command-line code.
