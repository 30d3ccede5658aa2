# RadixIP: verified models of the prefix engines, the XDP blocklist mirror and the policy layer

RadixIP answers longest-prefix queries on IP addresses with several tree layouts,
puts caching and sharding in front of them, rate-limits and bans clients, and
mirrors a blocklist into kernel maps. This project models those parts in Dafny and
proves that the complicated forms agree with simple ones: finite maps from bit
strings to metadata, a linear scan, an ideal bucket, an unbounded trace, a set.

Verify everything with `dafny verify dfyconfig.toml`.

| file | what it models |
|---|---|
| `Lpm.dfy`, `Bytes.dfy` | longest-prefix match on a finite map; packed bit strings |
| `PatriciaSpec.dfy`, `PatriciaTree.dfy` | the Go compressed tree as a value, and as linked nodes updated in place |
| `ArtNodes.dfy`, `ArtTree.dfy`, `ArtBits.dfy`, `ArtRuns.dfy` | the four child layouts of the adaptive radix tree, the tree over them, its masks bit by bit, and its runs |
| `BitTrie.dfy` | the Rust bit-by-bit trie and the repository's own linear scan |
| `Engines.dfy`, `Cache.dfy` | size and statistics, sharding (separate trees, one aliased tree), result cache |
| `TokenBucket.dfy`, `Limiters.dfy` | the packed compare-exchange bucket, its ideal form, and the Go limiter |
| `AutoBan.dfy`, `RouteTrie.dfy` | violation windows, bans and sweeps; the route trie |
| `Normalize.dfy`, `Xdp.dfy`, `Bridge.dfy` | prefix normalisation, kernel maps and packet verdict, subscribe-snapshot-replay |

Each tree has a method or function that follows the code branch by branch, a
meaning (`Contents`, `Spot`, `Children`, `Live`, `Stored`) and lemmas that tie the
two together for all inputs and all runs. Addresses and networks are pinned to plain
numbers: a bit string to its big-endian value, membership to a quotient, a mask to its
bits, the source of a packet to the bytes of the frame.

## Where the code falls short of the obvious claim

Each of these is a theorem, with the exact condition and an input that fails.

- Adaptive radix tree, insert: the other networks that can be deleted all stay so exactly
  when none of them is on the same routing path (`ArtRuns.InsertExactIff`). In every tree
  an insert replaces the entries whose 16-byte keys begin with its routing key, and buries
  those it goes past (`ArtTree.InsertOutcome`). A buried entry can no longer be deleted and answers
  only addresses that follow its key, zeros below its routing key, through the fork
  (`ArtRuns.BuriedAnswers`): after 10.0.0.0/8 and 10.1.0.0/16, 10.0.5.6 still finds the
  /8 and 10.2.5.6 does not (`ArtRuns.NestedClash`). `size` never falls short of the
  number of entries (`ArtRuns.RunShows`); how far each insert moves it above is stated
  (`ArtRuns.InsertSize`).
- Adaptive radix tree, delete: a node with all 256 children looks empty to its
  byte-wide counter. A delete takes with it exactly what is routed through the topmost
  such node that keeps its child (`ArtTree.DeleteOutcome`), and is exact exactly when
  there is none (`ArtTree.DeleteExactIff`); a run of 258 calls gets there
  (`ArtRuns.FullNodeDropped`).
- Adaptive radix tree, match: lookup uses the unmasked byte, so an address can lead past
  a leaf that was pushed below its boundary byte. Match is longest-prefix match exactly
  when every such address is in a longer stored network (`ArtTree.FindsLongestIff`). The
  two halves of a /24 fail it (`ArtRuns.HalvesMissed`); byte-aligned prefix-free networks
  do not (`ArtRuns.AlignedRunExact`). The file comment in `lib/go/engine/art/tree.go`
  promises more.
- The Rust trie keeps the root's own /0 entry when it is cleared. It agrees with the Go
  tree all along a run exactly when no clear finds a /0 (`Engines.TreesAgreeIff`). The
  engine's size then misses that entry (`Engines.AliasedEngine.Size`), and wraps below
  zero when it is removed (`Engines.CounterWraps`).
- Both families share one bit trie, so a network of one family replaces one of the
  other with the same bits (`BitTrie.FamiliesShareBits`). The cache in front is coherent
  in every run exactly when no two networks written do so (`Cache.AlwaysCoherentIff`).
- Token bucket: a caller that swaps late puts the stored second back, and the same
  seconds are paid out again. From a new bucket, with any number of callers on a clock
  that goes forward, the rate is kept exactly when nothing is refilled or the bucket
  holds at most one token (`TokenBucket.RateHoldsIff`). The bound that holds for every run counts forward
  moves of the stored second (`TokenBucket.AdmissionBound`).
- Go limiter: its idle reset and its 32-bit products go unnoticed exactly when
  `Limiters.LimitersAgree` holds (`Limiters.SameDecisionsIff`); a capacity of 2^29 wraps
  to nothing (`Limiters.WrappedCapacityRejects`). A clock one second behind makes its idle
  time wrap, and refills a drained bucket (`Limiters.StepBackRefills`).
- Rust auto-ban: where the platform's clock has no reading before its origin, too much is
  pruned while the clock reads less than the window. Bans follow the true window on every
  trace exactly when the clock starts no more than one tick, of the clock's own
  resolution, before the window's length, or one violation bans
  (`AutoBan.ExactFromIff`). A clock with room below its origin behaves as the Go one.
- Auto-ban: a ban and the sweep that lifts it restore every lookup unless the engine had
  a route with the host's bits, which is then gone, be it an IPv6 /32
  (`AutoBan.BanThenSweep`).
- Blocklist mirror: it converges in every interleaving exactly when no two published
  texts are accepted as one prefix (`Bridge.BlocklistConvergesIff`).
- Route trie: the walk does not backtrack, although its comment promises no answer only
  when no route matches. What it answers is stated exactly (`RouteTrie.MatchIsAnswer`).
  Every fitting request is answered exactly when, in the table of routes, every
  beginning of a pattern serves every route compatible with it (`RouteTrie.CompleteIff`).
  `RouteTrie.ContestLosesRoute` and `RouteTrie.ShadowedWildcard` are tables that fail.

## Model

| member | source | states |
|---|---|---|
| `Lpm.LongestIsExact` | lib/rust/engine/src/lpm.rs:20-38 | longest-prefix match has exactly one answer, stated without recursion: a stored prefix with no longer stored prefix, or none at all |
| `Lpm.ChangeIsLocal` | lib/rust/engine/src/cache.rs:104-108 | changing one prefix changes the answer only for addresses it covers |
| `Lpm.RemovalFallsBack` | lib/rust/engine/src/tree.rs:83-108 | removing a prefix is noticed exactly by the addresses it was the longest match of, which fall back to the next shorter one |
| `Lpm.UpdateShows` | lib/go/engine/tree.go:260-370 | a write is seen exactly by the addresses its prefix covers that have no longer match |
| `Lpm.PrefixByValue` | lib/go/engine/tree.go:537-551 | a bit string begins another exactly when its number is the quotient of the other's |
| `Bytes.ExtractBits` | lib/go/engine/tree.go:512-522 | the packed buffer holds exactly the requested bits, in ceil(length/8) bytes |
| `Bytes.BitsAreBigEndian` | lib/go/engine/tree.go:503-510 | the bits read from a byte string, first bit first, are its big-endian number |
| `Bytes.MembershipByValue` | lib/go/engine/tree.go:503-535 | an address has the first `len` bits of a network exactly when their numbers agree once the host bits are divided away |
| `Bytes.CommonPrefixLenOffset` | lib/go/engine/tree.go:524-535 | the result is the length of the longest common prefix of the two bit windows |
| `PatriciaSpec.GetSplit` | lib/go/engine/tree.go:299-319 | splitting a node at any bit loses no entry and adds none |
| `PatriciaSpec.InsertIsUpdate` | lib/go/engine/tree.go:260-370 | insert is map update on the key bits, through every branch |
| `PatriciaSpec.RemoveIsDeletion` | lib/go/engine/tree.go:409-441 | remove deletes exactly its key |
| `PatriciaSpec.LookupIsLongest` | lib/go/engine/tree.go:372-407 | the best-so-far recursion is longest-prefix match on the stored map |
| `PatriciaSpec.RunRefinesMap` | lib/go/engine/tree.go:472-501 | after any run of inserts, removals and clears the tree is the map the run describes, and every lookup answers from it |
| `PatriciaSpec.InsertOrderIrrelevant` | lib/go/engine/tree.go:260-370 | any two orders of the same distinct inserts give the same map and the same lookups |
| `PatriciaTree.CompressedTree.InsertNode` | lib/go/engine/tree.go:260-370 | the in-place recursion over packed edges makes the value-level insert and reports whether the key was free; all other nodes stay valid and separate |
| `PatriciaTree.CompressedTree.Relink` | lib/go/engine/tree.go:299-319 | the in-place split moves edge, metadata and both children one bit down |
| `PatriciaTree.CompressedTree.InsertSplit` | lib/go/engine/tree.go:299-340 | the split branch, with the key ending at the pivot or branching there, is the value-level insert |
| `PatriciaTree.CompressedTree.Descend` | lib/go/engine/tree.go:342-369 | the descending branch is too, creating the missing child |
| `PatriciaTree.CompressedTree.InsertBelow` | lib/go/engine/tree.go:342-369 | going on in a child changes that child as the value-level insert does and leaves its sibling alone |
| `PatriciaTree.CompressedTree.LookupNode` | lib/go/engine/tree.go:372-407 | the recursive walk over linked nodes computes the value-level lookup on the remaining address bits |
| `PatriciaTree.CompressedTree.RemoveNode` | lib/go/engine/tree.go:409-441 | clears one node's metadata, keeps the node set, and answers what was stored |
| `PatriciaTree.CompressedTree.ContainsNode` | lib/go/engine/tree.go:443-470 | true exactly when the remaining key bits are stored below the node |
| `PatriciaTree.CompressedTree.Insert` | lib/go/engine/tree.go:472-480 | contents become the old contents updated at the prefix bits; true exactly when they were absent |
| `PatriciaTree.CompressedTree.Lookup` | lib/go/engine/tree.go:482-485 | the value of the longest stored prefix of the whole address |
| `PatriciaTree.CompressedTree.Remove` | lib/go/engine/tree.go:487-491 | contents lose exactly the prefix bits; the old value is returned |
| `PatriciaTree.CompressedTree.Contains` | lib/go/engine/tree.go:493-497 | membership of the prefix bits |
| `PatriciaTree.CompressedTree.Clear` | lib/go/engine/tree.go:499-501 | the contents become empty |
| `PatriciaTree.InsertThenLookup` | lib/go/engine/tree.go:472-485 | on any tree object, by the numbers of the addresses: a lookup after an insert answers the new entry exactly to addresses in the network without a longer match, and all others as before |
| `ArtNodes.FindChild` | lib/go/engine/art/node.go:130-147 | in all four layouts, the child stored for the byte or none |
| `ArtNodes.AddChild` | lib/go/engine/art/node4.go:25-35 | adding an absent byte is map update in every layout; a layout grows to the next exactly when it is full |
| `ArtNodes.RemoveChild` | lib/go/engine/art/node256.go:30-40 | removing a byte is map deletion in every layout; layouts shrink exactly below 4, 17 and 49 children, although the counter of the largest wraps |
| `ArtNodes.UpdateChild` | lib/go/engine/art/tree.go:138-162 | redirecting a present byte is map update and keeps the layout |
| `ArtNodes.EmptyTest` | lib/go/engine/art/node256.go:43 | the counter test reads empty for no children and for all 256, and otherwise not |
| `ArtTree.LayoutTest` | lib/go/engine/art/tree.go:300 | the emptiness test of the tree is the one the four layouts make |
| `ArtNodes.KeyNode.SwapRemove` | lib/go/engine/art/node4.go:37-49 | overwriting the freed slot with the last keeps every other entry |
| `ArtNodes.KeyNode.FindChild` | lib/go/engine/art/node16.go:14-28 | the key scan finds the stored child or none |
| `ArtNodes.KeyNode.Append` | lib/go/engine/art/node4.go:25-35 | appending an absent byte is map update |
| `ArtNodes.Node48.FindChild` | lib/go/engine/art/node48.go:21-31 | the indexed slot is the stored child |
| `ArtNodes.Node48.Append` | lib/go/engine/art/node48.go:33-44 | a new slot for an absent byte is map update |
| `ArtNodes.Node256.FindChild` | lib/go/engine/art/node256.go:14-20 | the direct slot is the stored child |
| `ArtNodes.Node256.Clear` | lib/go/engine/art/node256.go:30-40 | clearing a taken slot is map deletion and steps the wrapping counter back |
| `ArtNodes.KeyNode.Resized` | lib/go/engine/art/node16.go:75-85 | copying to another capacity keeps the map |
| `ArtNodes.KeyNode.ToNode48` | lib/go/engine/art/node16.go:62-73 | growing to an index table keeps the map |
| `ArtNodes.Node48.CompactRemove` | lib/go/engine/art/node48.go:46-74 | after compaction slots are contiguous, the index is their inverse and only the byte is gone |
| `ArtNodes.Node48.ToNode256` | lib/go/engine/art/node48.go:79-91 | growing to a direct table keeps the map and counts it |
| `ArtNodes.Node48.ToNode16` | lib/go/engine/art/node48.go:93-108 | shrinking to a key array keeps the map |
| `ArtNodes.Node256.Put` | lib/go/engine/art/node256.go:22-28 | map update; the counter is the child count modulo 256 |
| `ArtNodes.Node256.ToNode48` | lib/go/engine/art/node256.go:48-62 | shrinking to an index table keeps the map |
| `ArtTree.MakeLeaf` | lib/go/engine/art/tree.go:167-183 | the leaf's network is the key with its host bits zeroed |
| `ArtTree.IndexByteIsRoute` | lib/go/engine/art/node.go:174-184 | the routing byte at each depth is the network's own byte, masked at the boundary |
| `ArtTree.MatchesIsTakes` | lib/go/engine/art/node.go:65-84 | the leaf test is membership of the address in the leaf's network, or for an address shorter than the routing key, agreement on its bytes |
| `ArtBits.MaskIs` | lib/go/engine/art/node.go:75-80 | the boundary mask divides the low bits away and multiplies back |
| `ArtBits.MasksByBits` | lib/go/engine/art/node.go:75-80 | two bytes have equal masks exactly when their leading bits are equal |
| `ArtBits.CoversByBits` | lib/go/engine/art/tree.go:167-183 | an address is in the network of a key and length exactly when it has the key's first `len` bits |
| `ArtBits.TakesByBits` | lib/go/engine/art/node.go:65-84 | a leaf takes an address exactly when they agree on the network bits, as far as the address goes |
| `ArtBits.ContainsByBits` | lib/go/engine/art/tree.go:1-17 | a network is part of another exactly when it is no shorter and has its bits |
| `ArtBits.OneEntry` | lib/go/engine/art/tree.go:63-136 | which addresses find the only entry of a tree: those with its bits, and for a length under 8 only those with zeros in the rest of the first byte |
| `ArtTree.DisjointRoutes` | lib/go/engine/art/tree.go:1-17 | networks of which neither contains the other never share a routing path |
| `ArtTree.InsertOutcome` | lib/go/engine/art/tree.go:63-136 | every insert at any depth of every tree a run can build: the new entry is deletable, exactly the entries whose 16-byte keys begin with its routing key are gone, every other leaf is at a stated depth, and `added` is false exactly when the walk ends on a leaf, said of the old tree |
| `ArtTree.DeleteOutcome` | lib/go/engine/art/tree.go:258-304 | every delete at any depth: it succeeds exactly for an entry not pushed below its routing key, and takes exactly that entry and what is routed through the topmost dropped full node; all else stays where it was |
| `ArtRuns.InsertExactIff` | lib/go/engine/art/tree.go:63-136 | all other deletable entries stay deletable with their values if and only if none of them is on the new routing path |
| `ArtTree.DropsIffFull` | lib/go/engine/art/tree.go:300 | a node is dropped if and only if some full node on the path has a child holding another entry |
| `ArtTree.DeleteExactIff` | lib/go/engine/art/tree.go:258-304 | a successful delete removes only its entry if and only if there is no such node |
| `ArtTree.HitIff` | lib/go/engine/art/tree.go:195-227 | exactly which entry answers an address, in every tree a run can build: the one that takes it and whose leaf the address leads to |
| `ArtTree.SearchIsHit` | lib/go/engine/art/tree.go:195-227 | the search returns the value of that entry, or nothing |
| `ArtTree.ReachedIff` | lib/go/engine/art/tree.go:195-227 | an address in a stored network is answered by it if and only if it does not lead past its leaf |
| `ArtTree.FindsLongestIff` | lib/go/engine/art/tree.go:187-227 | nested and buried networks included, the search ends on the longest stored network of every address if and only if every address that leads past a leaf is in a longer network |
| `ArtTree.MatchExactIff` | lib/go/engine/art/tree.go:187-227 | among networks none of which is inside another, every covered address finds its network if and only if no leaf sits below its boundary byte |
| `ArtRuns.AlignedMatchExact` | lib/go/engine/art/tree.go:187-227 | entries that are byte-aligned and not buried answer every address in them |
| `ArtRuns.RunShows` | lib/go/engine/art/tree.go:42-304 | every run of inserts and deletes, with no condition on them: the tree shows exactly the entries and buried entries of its history, in which an insert replaces and buries as its key says and a delete takes what the full node it drops holds; `size` never falls short of the number of entries |
| `ArtRuns.ShownAnswer` | lib/go/engine/art/tree.go:187-227 | in every run a search returns the value of the entry that takes the address and whose leaf it leads to, and nothing if there is none |
| `ArtRuns.InsertShows` | lib/go/engine/art/tree.go:63-136 | one insert on any tree, clashes included: exactly which entries are left, with which values, which of them are buried, and what `added` is |
| `ArtRuns.DeleteShows` | lib/go/engine/art/tree.go:258-304 | one delete on any tree: it succeeds exactly for an entry that is not buried, and exactly which entries are left |
| `ArtRuns.BuriedWhen` | lib/go/engine/art/tree.go:87-115 | after an insert a leaf that was not replaced is below its routing key exactly when it was before or the new routing key goes past it |
| `ArtRuns.BuriedAnswers` | lib/go/engine/art/tree.go:87-115 | an entry an insert goes past can no longer be deleted, and answers exactly the addresses that follow its 16-byte key through the fork |
| `ArtRuns.StepExact` | lib/go/engine/art/tree.go:245-256 | one insert without clash, or delete without full node, keeps tree, map and size in step |
| `ArtRuns.RunExact` | lib/go/engine/art/tree.go:42-52 | over every run of such steps the tree is an exact map and `size` its number of entries |
| `ArtRuns.FullMeansCrowded` | lib/go/engine/art/tree.go:300 | a full node on a path means that the entries take all 256 branches somewhere |
| `ArtRuns.TameIsSafe` | lib/go/engine/art/tree.go:42-304 | a run whose entries are prefix-free and nowhere take all 256 branches has only such steps, a condition on the entries alone |
| `ArtRuns.AlignedRunExact` | lib/go/engine/art/tree.go:42-304 | over every run of byte-aligned, prefix-free entries that nowhere take all 256 branches the tree is an exact map, `size` is exact, and Match returns the value of the one covering entry, or nothing if there is none |
| `ArtRuns.InsertSize` | lib/go/engine/art/tree.go:42-52 | `size` goes up by one unless the walk ends on a leaf of the old tree; its distance from the number of entries changes by the entries replaced, less one in that case |
| `ArtRuns.SecondGoesPast` | lib/go/engine/art/tree.go:87-115 | of any two networks on one routing path, the second going past the first: `size` is 2, a delete of the first changes nothing, and each address of the first only finds it exactly when it follows its key through the fork |
| `ArtRuns.NestedClash` | lib/go/engine/art/tree.go:87-115 | so after 10.0.0.0/8 and 10.1.0.0/16, 10.0.5.6 finds the /8, 10.2.5.6 finds nothing, and the /8 cannot be deleted |
| `ArtRuns.TwinsMissed` | lib/go/engine/art/tree.go:195-227 | two networks ending inside the same byte push each other down, and an address of the first with another byte there finds nothing |
| `ArtRuns.HalvesMissed` | lib/go/engine/art/tree.go:1-17 | so 10.0.0.130 finds nothing beside 10.0.0.0/25 |
| `ArtRuns.FullNodeDropped` | lib/go/engine/art/tree.go:258-304 | 257 inserts that fill a node, and a delete of 0.1.0.0/16 that takes 0.0.0.0/16 with it |
| `ArtRuns.Tree.InsertPrefix` | lib/go/engine/art/tree.go:42-52 | whatever the tree holds: the complete new entries, the buried ones, and what `size` becomes |
| `ArtRuns.Tree.DeletePrefix` | lib/go/engine/art/tree.go:245-256 | succeeds exactly for an entry that is not buried; the complete entries left, a dropped full node included |
| `ArtRuns.Tree.Match` | lib/go/engine/art/tree.go:187-193 | the value of an entry that takes the address, and of the one whose leaf the address leads to; of the longest covering one when every address that leads past a leaf is in a longer network |
| `BitTrie.BitTrie.Insert` | lib/rust/engine/src/tree.rs:42-77 | map update at the network bits with its family; true exactly when the key was free |
| `BitTrie.BitTrie.Reach` | lib/rust/engine/src/tree.rs:43-70 | the loop creates the missing nodes of the path and changes no entry |
| `BitTrie.BitTrie.Remove` | lib/rust/engine/src/tree.rs:83-108 | deletes exactly the key, keeps every node, and answers the old value |
| `BitTrie.BitTrie.Contains` | lib/rust/engine/src/tree.rs:110-130 | membership of the network bits |
| `BitTrie.BitTrie.Clear` | lib/rust/engine/src/tree.rs:132-135 | everything goes except an entry at the root |
| `BitTrie.BitTrie.Lookup` | lib/rust/engine/src/lpm.rs:133-173 | the walk, which terminates past the end of the address, is longest-prefix match within the address's family, despite stale networks on removed nodes |
| `BitTrie.ScanEntries` | lib/rust/engine/src/lpm.rs:20-38 | the scan returns a longest network containing the address, or none if there is none |
| `BitTrie.ScanIsLookup` | lib/rust/engine/src/lpm.rs:20-38 | any scan over the live entries and the trie walk give the same answer for every address |
| `BitTrie.ContainsByValue` | lib/rust/engine/src/lpm.rs:175-181 | a network contains an address exactly when they are of one family and their numbers agree above the host bits |
| `BitTrie.InsertThenLookup` | lib/rust/engine/src/tree.rs:42-77 | on any trie object, by value: a lookup after an insert answers the new entry exactly to addresses in the network without a longer match, and the others of the family as before |
| `BitTrie.FamiliesShareBits` | lib/rust/engine/src/tree.rs:72-74 | storing a network leaves the other family alone if and only if that family does not hold the same bits |
| `Engines.TrieHasLeftover` | lib/rust/engine/src/tree.rs:132-135 | on every single-family run the bit trie stores what the Patricia tree does, plus at most a /0 left by a clear |
| `Engines.LookupsDifferByLeftover` | lib/rust/engine/src/lpm.rs:133-173 | every address gets the Patricia tree's answer from the bit trie, or that leftover if there is none |
| `Engines.TreesAgreeIff` | lib/rust/engine/src/tree.rs:132-135 | both store the same all along a run if and only if no clear finds a /0 |
| `Engines.ClearedDefaultStays` | lib/rust/engine/src/tree.rs:132-135 | after storing a /0 and clearing, every address still finds it in the bit trie and nothing in the other |
| `Engines.DriveBoth` | lib/go/engine/tree.go:472-501 | a Patricia tree object and a bit trie object driven through the same calls answer alike, up to the leftover |
| `Engines.InsertHolds` | lib/go/engine/engine.go:26-40 | a shard still stores exactly the updated map and counts it |
| `Engines.RemoveHolds` | lib/go/engine/engine.go:55-66 | a shard stores exactly the map without the key, counts it and answers the old value |
| `Engines.LookupHolds` | lib/go/engine/engine.go:42-53 | a lookup answers longest-prefix match, and the hit counter moves exactly when something was found |
| `Engines.ShardedEngine.constructor` | lib/go/engine/engine.go:109-115 | all shards start empty |
| `Engines.ShardByValue` | lib/go/engine/engine.go:117-166 | the shard is the address without its last byte, or the first 64 bits without their last 40, modulo the shard count, so a /24 stays on one shard |
| `Engines.ShardedEngine.Insert` | lib/go/engine/engine.go:168-176 | all shards store the same updated map; one insert is reported |
| `Engines.ShardedEngine.Lookup` | lib/go/engine/engine.go:178-180 | the answer is that of a single engine whichever shard the address hashes to; total lookups go up by one |
| `Engines.ShardedEngine.Remove` | lib/go/engine/engine.go:182-190 | all shards lose the key and the old value is returned |
| `Engines.ShardedEngine.Contains` | lib/go/engine/engine.go:192-197 | membership in the common map |
| `Engines.ShardedEngine.Size` | lib/go/engine/engine.go:205-210 | the number of distinct stored prefixes |
| `Engines.AliasedEngine.Insert` | lib/rust/engine/src/engine.rs:190-195 | n writes to one aliased tree are one update, and the first counter stays the number of entries less those a clear left uncounted |
| `Engines.AliasedEngine.Remove` | lib/rust/engine/src/engine.rs:202-211 | n removals from one aliased tree are one, with the right answer; the counter keeps the same distance |
| `Engines.AliasedEngine.GetShard` | lib/rust/engine/src/engine.rs:141-186 | the hash never wraps: it is the base-31 value of the first four bytes, modulo the shard count |
| `Engines.AliasedEngine.Lookup` | lib/rust/engine/src/engine.rs:197-200 | the shard the address hashes to answers as the one tree |
| `Engines.AliasedEngine.Contains` | lib/rust/engine/src/engine.rs:213-218 | membership in the one tree |
| `Engines.AliasedEngine.Clear` | lib/rust/engine/src/engine.rs:220-224 | counters are zeroed while a /0 entry survives, uncounted from then on |
| `Engines.AliasedEngine.Size` | lib/rust/engine/src/engine.rs:226-228 | the number of entries less those left uncounted, as a 64-bit word; right, while both fit the word, if and only if none is uncounted |
| `Engines.CounterWraps` | lib/rust/engine/src/engine.rs:61-72 | clearing and then removing a /0 leaves an empty engine of size 2^64 - 1 |
| `Cache.InvalidationKeepsCoherent` | lib/rust/engine/src/cache.rs:104-108 | dropping the answers inside a written network leaves only answers the engine would still give |
| `Cache.RetainedByValue` | lib/rust/engine/src/cache.rs:104-108 | invalidation drops exactly the answers of the network's family whose address has its number above the host bits |
| `Cache.SharedBitsGoStale` | lib/rust/engine/src/cache.rs:140-154 | for any two networks of different families with equal bits, storing one leaves a stale cached answer of the other |
| `Cache.AlwaysCoherentIff` | lib/rust/engine/src/cache.rs:57-180 | over every run of writes, deletions, lookups with any evictions and clears each cached answer is the engine's, if and only if no two of the networks written share their bits across the families |
| `Cache.WriteIsLocal` | lib/rust/engine/src/cache.rs:104-108 | a write is seen only by addresses inside the network |
| `Cache.CachedEngine.Lookup` | lib/rust/engine/src/cache.rs:57-102 | the engine's own answer, cached hits and misses alike; a new answer is remembered, at the cost of exactly one other when the cache is full, and the cache stays coherent and within its bound |
| `Cache.CachedEngine.Insert` | lib/rust/engine/src/cache.rs:140-154 | the engine is updated, only answers inside the network are dropped, and the cache stays coherent unless the other family holds the bits |
| `Cache.CachedEngine.Remove` | lib/rust/engine/src/cache.rs:160-171 | the same for removal, with the old value returned |
| `Cache.CachedEngine.Clear` | lib/rust/engine/src/cache.rs:177-180 | the cache is empty and coherent, although the engine keeps its root entry |
| `TokenBucket.PackRoundTrip` | lib/rust/policy/src/token_bucket.rs:26-34 | packing is a bijection between pairs of 32-bit values and 64-bit words |
| `TokenBucket.PackIsShift` | lib/rust/policy/src/token_bucket.rs:26-28 | the word is the seconds shifted up by 32 bits, or-ed with the tokens |
| `TokenBucket.BalanceIsExact` | lib/rust/policy/src/token_bucket.rs:78-83 | saturating arithmetic gives the exact refilled balance clamped at the ceiling |
| `TokenBucket.Bucket.constructor` | lib/rust/policy/src/token_bucket.rs:56-61 | a new bucket is full and stamped now |
| `TokenBucket.Bucket.Allow` | lib/rust/policy/src/token_bucket.rs:70-104 | admits exactly when a whole token is there, takes exactly one, and leaves the word alone on rejection |
| `TokenBucket.Linearizable` | lib/rust/policy/src/token_bucket.rs:74-103 | in every interleaving of load and compare-exchange steps by any number of callers, all calls, rejected ones included, got the answers they get one after the other |
| `TokenBucket.CallsAccounted` | lib/rust/policy/src/token_bucket.rs:91-102 | in every interleaving each call begun is answered once or still in progress: one that loses the exchange goes on |
| `TokenBucket.AloneFinishes` | lib/rust/policy/src/token_bucket.rs:74-103 | from every state of every run a caller left alone is answered within one retry, by the clock it read and the word it finds |
| `TokenBucket.Conservation` | lib/rust/policy/src/token_bucket.rs:74-103 | within one second, balance plus 1000 per admission is conserved in every interleaving |
| `TokenBucket.AdmissionBound` | lib/rust/policy/src/token_bucket.rs:78-96 | any stretch of admissions costs at most the ceiling plus what forward clock moves refill, in every run |
| `TokenBucket.RateBound` | lib/rust/policy/src/token_bucket.rs:70-104 | when swaps carry a nondecreasing clock, admissions between two of them are at most capacity + rate x seconds |
| `TokenBucket.StaleClockOverspends` | lib/rust/policy/src/token_bucket.rs:71-72 | for every capacity of two or more and every rate of one or more, a run from a new bucket on a clock that goes forward that breaks that bound |
| `TokenBucket.RateHoldsIff` | lib/rust/policy/src/token_bucket.rs:56-104 | from a new bucket on a clock that goes forward the bound holds in every interleaving if and only if the rate is zero or the capacity at most one |
| `Limiters.TicksClosedForm` | lib/rust/policy/src/token_bucket.rs:78-83 | clamping once after n seconds is clamping after each of them |
| `Limiters.CallRefines` | lib/rust/policy/src/token_bucket.rs:70-104 | one call decides as the ideal bucket and keeps the two related, rejections included |
| `Limiters.NewBucketRelated` | lib/rust/policy/src/token_bucket.rs:56-61 | a new bucket is related to a full ideal one |
| `Limiters.TraceRefines` | lib/rust/policy/src/token_bucket.rs:70-104 | on every nondecreasing trace the lazy bucket decides as an ideal bucket refilled and clamped every second |
| `Limiters.FirstSecond` | lib/rust/policy/src/token_bucket.rs:56-104 | of the calls in a first second Rust admits exactly the first `capacity`, up to 4294967, and Go as many as the capacity in thousandths, cut to 32 bits, makes whole tokens |
| `Limiters.SameStep` | lib/go/policy/token_bucket.go:87-157 | under the condition, buckets alike in second and whole tokens decide a call alike and stay alike |
| `Limiters.SameTrace` | lib/go/policy/token_bucket.go:87-157 | so every nondecreasing trace is decided alike |
| `Limiters.TokensShow` | lib/go/policy/token_bucket.go:123-157 | buckets that differ in whole tokens at some second are told apart by calls in that second |
| `Limiters.GapShows` | lib/go/policy/token_bucket.go:140-146 | a wrapped refill that the condition rules out is told apart |
| `Limiters.ResetShows` | lib/go/policy/token_bucket.go:96-106 | so is a reset that comes before the bucket is full again |
| `Limiters.SameDecisionsIff` | lib/go/policy/token_bucket.go:87-157 | for every configuration whose products fit 64 bits, wrapped or not, the limiters agree on all nondecreasing traces if and only if: no capacity, or the 32-bit ceiling holds as many tokens, every gap up to the TTL refills alike, and (ttl + 1) x rate covers the capacity |
| `Limiters.WithoutWrap` | lib/go/policy/token_bucket.go:87-157 | when nothing wraps only the last of these is left |
| `Limiters.FirstCallSameIff` | lib/go/policy/token_bucket.go:123-157 | whatever wraps, a first call is decided as in Rust if and only if the wrapped ceiling still holds a token |
| `Limiters.WrappedCapacityRejects` | lib/go/policy/token_bucket.go:126 | a capacity of 2^29 wraps to none: Go rejects the first call, Rust admits it |
| `Limiters.ClockBehind` | lib/go/policy/token_bucket.go:96-106 | on a clock behind the stored second Rust keeps the balance, while Go resets the bucket unless the TTL is longer than the wrapped idle time |
| `Limiters.StepBackRefills` | lib/go/policy/token_bucket.go:96-106 | so a drained bucket admits again one second earlier in Go, and not in Rust |
| `AutoBan.FilterInPlace` | lib/go/policy/auto_ban.go:67-72 | reusing the slice's own memory keeps the timestamps inside the window, in order, as many as there are at or after, or after, the cutoff |
| `AutoBan.KeepIs` | lib/go/policy/auto_ban.go:67-72 | what is kept stands, in order, at exactly the positions whose timestamp is not before the cutoff (Rust) or after it (Go) |
| `AutoBan.KeptIsWindow` | lib/go/policy/auto_ban.go:64-74 | early pruning never changes what is inside a later window |
| `AutoBan.BansExactly` | lib/go/policy/auto_ban.go:58-81 | a violation bans if and only if the number of those since the previous ban that are less than (Go) or at most (Rust) `window` ticks old, counting it, reaches the threshold |
| `AutoBan.BansArePaidFor` | lib/go/policy/auto_ban.go:76-99 | whatever the clock does, bans x threshold plus violations since the last ban never exceed all violations |
| `AutoBan.EarlyClockForgets` | lib/rust/policy/src/auto_ban.rs:80-93 | for every threshold of two or more and every clock that starts two ticks or more before the window's length in ticks, a trace on which a ban is missed |
| `AutoBan.ExactFromIff` | lib/rust/policy/src/auto_ban.rs:79-111 | every trace from a given tick on is banned by the true window if and only if the tracker is the Go one, bans at once, or starts at most one tick before the window's length in ticks |
| `AutoBan.AddressesAreIndependent` | lib/go/policy/auto_ban.go:66-74 | in any mixed trace each address is tracked as if it were alone |
| `AutoBan.MixedTraceBans` | lib/go/policy/auto_ban.go:58-81 | so after any mixed trace the next violation of an address bans by that address's own count |
| `AutoBan.HostsDiffer` | lib/rust/policy/src/auto_ban.rs:162-171 | different addresses have different host routes |
| `AutoBan.BanSyncs` | lib/rust/policy/src/auto_ban.rs:100-128 | a ban keeps table and engine in step, at the cost of an own route with the same bits |
| `AutoBan.LiftSyncs` | lib/rust/policy/src/auto_ban.rs:139-155 | so does a ban lifted from both |
| `AutoBan.BannedSeeBan` | lib/rust/policy/src/auto_ban.rs:123-128 | every banned address sees its ban and every other address sees the engine's own routes |
| `AutoBan.BanThenSweep` | lib/rust/policy/src/auto_ban.rs:79-157 | a banning violation and a later sweep on the tracker: every address not lifted by that sweep sees what it saw before, except exactly those decided by an own route with the host's bits, which fall back to their next shorter route |
| `AutoBan.RouteLost` | lib/rust/engine/src/tree.rs:83-108 | who notices a lost route, and what they see instead |
| `AutoBan.HostSharesBits` | lib/rust/policy/src/auto_ban.rs:162-171 | an IPv4 host route has the bits of the IPv6 /32 with the same four bytes |
| `AutoBan.Tracker.RecordViolation` | lib/rust/policy/src/auto_ban.rs:79-111 | a ban exactly when the remembered violations not cut off, counting this one, reach the threshold; window, ban table, engine and surviving own routes after the call; table and engine stay in step |
| `AutoBan.Tracker.Sweep` | lib/rust/policy/src/auto_ban.rs:139-155 | exactly the bans not yet expired remain, in the table and in the engine |
| `RouteTrie.SplitAtSlash` | lib/rust/policy/src/route_trie.rs:129-131 | a slash anywhere separates the pieces before it from those after it, doubled and trailing slashes included |
| `RouteTrie.SplitJoin` | lib/rust/policy/src/route_trie.rs:129-131 | splitting undoes joining segments with slashes |
| `RouteTrie.StoredAfterExtend` | lib/rust/policy/src/route_trie.rs:43-59 | an insert changes exactly its own pattern and methods |
| `RouteTrie.RouteTrie.Insert` | lib/rust/policy/src/route_trie.rs:43-59 | the path is split, and the trie is that of one route more, under the keys `KeysAre` describes |
| `RouteTrie.RouteTrie.KeysAre` | lib/rust/policy/src/route_trie.rs:49-58 | a route is stored under exactly its methods in upper case, or under the empty one if it names none |
| `RouteTrie.RouteTrie.MatchRoute` | lib/rust/policy/src/route_trie.rs:67-93 | the loop with its two cursors answers, for any path and method, what the route list determines |
| `RouteTrie.InsertThenMatch` | lib/rust/policy/src/route_trie.rs:43-93 | on any trie object the path just registered answers with its limiter to each of its methods whatever the case, and to all methods if it names none and no other route there names the one asked for |
| `RouteTrie.OneRoute` | lib/rust/policy/src/route_trie.rs:43-93 | a new trie with one route answers exactly the requests with one of its methods and with its segments, any segment for `*` and any rest after a final one |
| `RouteTrie.MatchIsAnswer` | lib/rust/policy/src/route_trie.rs:67-93 | for every list of routes the answer is the first limiter of two patterns defined from the list: the one the walk follows, literal before wildcard, and the last wildcard beside or along it |
| `RouteTrie.CandidatesMatch` | lib/rust/policy/src/route_trie.rs:73-88 | both patterns match the path |
| `RouteTrie.MatchIsSound` | lib/rust/policy/src/route_trie.rs:67-93 | a returned limiter belongs to an inserted route that admits the method and whose pattern matches the whole path or ends in a wildcard |
| `RouteTrie.LiteralRouteWins` | lib/rust/policy/src/route_trie.rs:73-92 | a literally registered path returns its latest method-specific, or else catch-all, limiter whatever wildcards exist |
| `RouteTrie.LastRouteWins` | lib/rust/policy/src/route_trie.rs:114-123 | on a literally registered path the last route that names the method decides, and where none does the last one for all methods |
| `RouteTrie.CompleteIff` | lib/rust/policy/src/route_trie.rs:67-93 | every request for a path that some route fits, in full or by a final wildcard, is answered if and only if a condition on the route table holds: at each beginning of a pattern that paths of a route can be taken to, it or its last wildcard stores a limiter for them, and the wildcard does where such paths run off the table |
| `RouteTrie.ServedRequest` | lib/rust/policy/src/route_trie.rs:67-93 | under that condition a fitting request is answered |
| `RouteTrie.PathTaken` | lib/rust/policy/src/route_trie.rs:73-88 | for a pattern compatible with a beginning of one there is a path whose walk follows that beginning |
| `RouteTrie.CompleteWithoutContest` | lib/rust/policy/src/route_trie.rs:73-92 | where literals and wildcards do not compete, every pattern as long as the path gets exactly its limiter |
| `RouteTrie.ContestLosesRoute` | lib/rust/policy/src/route_trie.rs:73-88 | a family of two routes and a path that fits one of them and gets no limiter |
| `RouteTrie.ShadowedWildcard` | lib/rust/policy/src/route_trie.rs:78-92 | without any contest, a shorter wildcard route shadowed by a deeper wildcard where no route ends |
| `Normalize.GoNormalize` | lib/go/xdp/loader.go:117-138 | the same verdict and the same prefix as the Rust normaliser on every input |
| `Normalize.MaskedMappedIsLong` | lib/go/xdp/loader.go:118-122 | a masked prefix in the mapped range is at least /96, so that error is unreachable |
| `Normalize.RangeIsPrefix` | ebpf/xdp-loader/src/lib.rs:291-300 | an address range contains another exactly when its network bits are a prefix |
| `Normalize.OverlapsAgree` | ebpf/xdp-loader/src/lib.rs:291-303 | comparing ranges and comparing leading bits are the same overlap test |
| `Normalize.OverlapIsSharedAddress` | lib/go/xdp/loader.go:132-136 | overlap means an address in both |
| `Normalize.AcceptedIsAcceptable` | ebpf/xdp-loader/src/lib.rs:274-306 | an accepted prefix is masked, long enough and overlaps no protected range |
| `Normalize.AcceptedIff` | ebpf/xdp-loader/src/lib.rs:274-306 | a prefix is accepted if and only if it is long enough for the family of the addresses it stands for and none of them is protected; what is accepted has exactly these addresses, and no host bits |
| `Normalize.RejectionNamesFirst` | ebpf/xdp-loader/src/lib.rs:291-303 | a rejection for a protected range names the first one that shares an address |
| `Normalize.NormalizeIdempotent` | ebpf/xdp-loader/src/lib.rs:274-306 | normalising an accepted prefix again changes nothing |
| `Normalize.MappedMembership` | ebpf/xdp-loader/src/lib.rs:276-282 | an IPv4 address is in the result if and only if its mapped form was in the input |
| `Xdp.PutSafe` | ebpf/xdp-loader/src/lib.rs:78-97 | adding keeps entries acceptable and equal to the keys of both tries |
| `Xdp.DeleteSafe` | ebpf/xdp-loader/src/lib.rs:99-111 | so does deleting |
| `Xdp.EventsSafe` | ebpf/xdp-loader/src/lib.rs:316-330 | any list of messages keeps the maps safe |
| `Xdp.BareIsAdd` | ebpf/xdp-loader/src/lib.rs:318-322 | a message without a tag does what the same text tagged with add does |
| `Xdp.SeedSafe` | ebpf/xdp-loader/src/lib.rs:175-191 | any snapshot does |
| `Xdp.ProtectedNeverHit` | ebpf/xdp-loader/src/lib.rs:291-303 | in safe maps no address of a never-block range is covered by a key |
| `Xdp.Loader.Apply` | ebpf/xdp-loader/src/lib.rs:316-330 | a message keeps the maps safe; a well-formed one takes effect exactly when its prefix is accepted, and a rejected one changes nothing |
| `Xdp.Loader.Seed` | ebpf/xdp-loader/src/lib.rs:176-188 | the loop adds exactly the accepted members, counts accepted and rejected ones and keeps the maps safe |
| `Xdp.BlockedIff` | ebpf/xdp-kernel/src/main.rs:92-118 | a source is blocked if and only if some entry covers it |
| `Xdp.TryXdp` | ebpf/xdp-kernel/src/main.rs:78-121 | drops exactly when the source address at its RFC offset is blocked, fails open, and bumps the matching counter |
| `Xdp.SourceByValue` | ebpf/xdp-kernel/src/main.rs:78-108 | the source is the big-endian number of the bytes at their offsets in the frame, past at most one tag, for the EtherTypes written out |
| `Xdp.NeverBlockHolds` | ebpf/xdp-loader/src/lib.rs:274-330 | after any seed and any messages no source in a never-block range of its family is blocked |
| `Xdp.DecideAfter` | ebpf/xdp-kernel/src/main.rs:67-121 | a loader seeded and driven by any messages, then a packet: dropped exactly when its source is in an entry, passed when it is in a never-block range |
| `Bridge.RunKeeps` | lib/go/xdp/bridge.go:27-80 | in every interleaving the last change under way for each prefix agrees with the set, and settled keys are right in the mirror |
| `Bridge.DeliverKeeps` | lib/go/xdp/bridge.go:62-80 | one delivered message keeps that invariant |
| `Bridge.PublishKeeps` | lib/go/xdp/bridge.go:30-59 | so does publishing, before and after the snapshot |
| `Bridge.QuietAgrees` | lib/go/xdp/bridge.go:62-80 | once nothing is under way the invariant is equality of mirror and accepted set |
| `Bridge.TwoNamesDiverge` | lib/go/xdp/bridge.go:91-111 | two names of one key give a run that ends wrong |
| `Bridge.ConvergesIff` | lib/go/xdp/bridge.go:27-111 | the mirror ends as the accepted prefixes of the final set, ops seen twice included, if and only if no two publishable prefixes are accepted as one key |
| `Bridge.BlocklistConvergesIff` | lib/go/xdp/bridge.go:27-111 | a set of texts read by the parser and the normaliser is mirrored exactly, in every interleaving, if and only if no two texts are accepted as one prefix |
| `Bridge.CanonicalConverges` | lib/go/xdp/bridge.go:27-111 | a blocklist that writes each prefix in canonical form and in one way is mirrored exactly |
| `Bridge.SecondSpellingDiverges` | lib/go/xdp/loader.go:117-138 | one that writes an accepted prefix in two ways is not |
| `Bridge.MessageIsStep` | lib/go/xdp/bridge.go:91-111 | a message with any text changes the loader's entries as the mirror's step says |
| `Bridge.SeedIsImage` | lib/go/xdp/loader.go:168-177 | seeding lists exactly the image of the snapshot |
| `Bridge.SeededVerdict` | ebpf/xdp-loader/src/lib.rs:175-191 | from texts to packets: a seeded loader drops exactly those whose source some text stands for that is long enough and touches nothing protected |

## Left out

- Update in place of the adaptive radix tree's nodes inside the tree: the four layouts are mutable objects, but the tree above them is a value whose child tables are the maps they refine.
- The address family of an adaptive radix tree's networks: its keys are bytes, and a network is compared with addresses by length and bytes only, as in the code.
- The shards of the Go engine are values holding the value-level Patricia tree; the aliased Rust tree is an object.
- The nested maps of the route trie are values inside its object; upper-casing is a parameter.
- The network kept beside each Patricia node's metadata: no tree operation reads it.
- Locks, memory order and real clocks: callers take atomic steps and time is a parameter. The auto-ban record and sweep are atomic.
- RateBound: asks that the swaps carry a nondecreasing clock; RateHoldsIff says when that can be dropped.
- KeptIsWindow: asks that the clock starts late enough for the Rust tracker, as BansExactly does.
- BansExactly: asks that the clock starts late enough for the Rust tracker; ExactFromIff shows that this is exact.
- AliasedEngine.Size: whether the counter is right is stated while the number of entries fits 64 bits.
- WriteIsLocal: asks that the other family does not hold the same bits; AlwaysCoherentIff shows that this is exact over runs.
- MatchExactIff: asks that no network is inside another, since else two of them cover one address; FindsLongestIff covers nested ones.
- SameDecisionsIff: asks that capacity and rate times 1000 fit 64 bits, as TraceRefines does; beyond that the Rust products overflow.
- CompleteWithoutContest: only for patterns as long as the path; ShadowedWildcard shows why, and CompleteIff has the exact condition.
- Text parsing of CIDRs, white-space splitting of messages and kernel map capacity: the parser is a parameter, messages come split, updates succeed.
- Redis clients, the hybrid engine, the Redis side of the cache, warm restart with pinned maps.
- The Go uncompressed tree, the Rust compressed tree, node accessor variants, SIMD key search and raw memory access.
- Statistics of the Rust engines, eviction and idle expiry of the Rust limiter's bucket cache, shard-count heuristics, string hashing of limiter keys.
- Web adapters, language bindings, gRPC servers, configuration, operator, benchmarks and generated code.
