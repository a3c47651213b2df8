# FEAR 2 VR SDK: a verified model of its algorithms and protocols

The SDK is a mod loader for a 32-bit game. It patches the game's code, reads structures out of
memory it does not control, and must be able to leave the process without a trace. This project
models the parts of it that are algorithms or protocols, and proves what they promise:

- **Hook registry** (`CodeMemory`, `Restoration`, `HookRegistry`, `HookProtocol`, `HookRefinement`,
  `HookHistories`, `HookReplay`, `HookRaces`): installing and retiring code patches, once as a class
  over its own fields and once as a transition system in which any number of installer threads
  interleave with the shutdown thread; when disabling puts every byte back; that class and protocol
  agree, step by step and as histories; and the interleavings that go wrong.
- **Object walks** (`Walks`): three walks over an intrusive list that may be corrupt, cyclic or
  unreadable.
- **Skeletons** (`Skeleton`): the local checks that certify a node array as a tree, and what a
  forward pass and a descent over it compute. `NodeNames` holds the hash half of the same check.
- **Game database** (`NameHash`, `NameIndexing`, `Attributes`, `NameRecovery`, with `Grouping`):
  the name hash, binary search on it, the measurements that certify the index, packed bits, and the
  reverse index from hashes to names.
- **Key bindings** (`Bindings`): a length-prefixed table found by parsing at every offset.
- **C scanners** (`Scanners`): comment blanking and top-level splitting.
- **Console registry** (`Console`) and **bootstrap gate** (`Gate`).

Code that works step by step is a method with a loop, proved equal to a specification function;
what the program promises is then proved about that function. A guarded read is an `Option`: `None`
is a read that faults. Walk limits (100000 objects, 4096 commands, 4096 names) are parameters, so
every theorem holds for any limit. Whether the system allows a hook to be disabled, which threads
can be armed, and what a scan over the other threads answers are parameters of the step they
belong to.

## What the code relies on without checking it

Byte restoration is exact without any assumption: after any history at all, a retirement that answers
true leaves code memory original exactly if the last active hook over each address, in the order of
the walk, saved the original byte (`HookRegistry.HistoryRestoresExactly`). Two predicates named
`Disciplined`, one per hook module, list what is enough for that, and is not checked by the code; the
protocol theorems require them and nothing else.

- Patches do not overlap, apart from inline hooks on one target, which the registry itself keeps
  apart. The registry compares addresses only, so it accepts two hooks one byte apart; and
  `install_mid` asks for no owner at all.
- Inline hooks have non-empty names. The owner check compares the owner's *name* with the empty
  string (src/Hooks.cpp:56), so a hook recorded under the empty name owns nothing.
- Two installs for one target are not under way together: `owner_of` looks before the record is made.
- In `HookProtocol` only: every jump changes at least one byte.

`HookRegistry.NeighboursOverlap`, `HookRegistry.MidOverInlineLeavesJump`,
`HookRegistry.EmptyNameOwnsNothing` and `HookRaces.RivalsLeaveJump` give the histories that go wrong
without each of the first three.

## Where the code and its documentation disagree

- **Skeleton certificate.** The five checks certify a tree for assets of up to 256 nodes and for no
  larger size, because indices are compared after a cast to eight bits. The node checker accepts up to 1024
  nodes (shared/sdk/CClientMgr.cpp:972). `Skeleton.CertificateBound` proves both directions.
- **Three walks that "validate identically"** (shared/sdk/CClientMgr.hpp:811-814). Counting and
  iterating read an object's type and link; a snapshot also reads the bodies it copies. It agrees
  with the other two exactly when those bodies are readable (`Walks.CompareWalks`, `Walks.BodyFaultParts`).
- **Name index.** A printable run longer than 96 bytes is not skipped: its 97th byte discards the run so
  far, so a run of n bytes is indexed as its last n % 97 bytes (`NameRecovery.MaximalRunEmits`).
- **Binding table.** The parser accepts joystick and gamepad records, but the scan tries only offsets
  that start with "Key " or "Mouse ", so a table that begins with another kind is never found whole:
  at most a part of it is, behind a record whose command is a possible count
  (`Bindings.TableFoundExactly`, `Bindings.JoystickFirst`).
- **First-sighting hash check.** Once the name table is full a new name counts as consistent whatever
  its hash (`NodeNames.FullTableHidesMismatch`). The check is right for every way to assign hashes
  exactly if every name sighted more than once is among the first 4096 distinct names
  (`NodeNames.ConsistencySoundExactly`).
- **Unload.** `Framework::shutdown` is documented to return true only if the module may be unmapped
  (src/Framework.hpp:36). The proof of quiescence looks at instruction pointers, so an installer that
  has passed its checks and is executing outside the module goes unnoticed, and faults when it returns
  (`HookRaces.StragglerFaults`); and the result of disabling a late hook is ignored
  (src/Hooks.cpp:87). Unmapping is safe for good exactly if nobody is in flight and no failed late
  disable is still active (`HookProtocol.UnmapExactlySafe`).

## Model

| member | source | states |
|---|---|---|
| `CodeMemory.RestoredExactly` | src/Hooks.cpp:127-203 | With every patch in place and changing something, code memory is the original if and only if no hook is active |
| `CodeMemory.OverlayGrows` | src/Hooks.cpp:67-78 | A new patch clear of every active one saves original bytes, so memory stays the original under disjoint patches |
| `CodeMemory.OverlayShrinks` | src/Hooks.cpp:137-138 | Disabling any one hook, or failing to, in any order, leaves memory the original under the remaining patches |
| `Restoration.RestoresExactly` | src/Hooks.cpp:170-201 | Whatever the hooks, overlapping or not, and the order, disabling them all restores everything if and only if the last active hook over each address saved the original byte |
| `Restoration.OverlaidRecoverable` | src/Hooks.hpp:16-17 | Disjoint patches in place meet that condition |
| `Restoration.InOrderExactly` | src/Hooks.cpp:48-50 | Two hooks disabled in the order of installation restore everything if and only if the first jump is harmless under the second patch, wherever the two lie |
| `Restoration.InReverseAlways` | src/Hooks.cpp:48-50 | Disabled in reverse order they restore everything |
| `HookRegistry.Hooks.constructor` | src/Hooks.hpp:107-117 | A new registry is open and empty, over untouched code |
| `HookRegistry.Hooks.Seal` | src/Hooks.cpp:21-25 | Sealing closes the registry and changes nothing else |
| `HookRegistry.Hooks.FindOwner` | src/Hooks.cpp:31-38 | The name of the first record for an address, the empty string if there is none |
| `HookRegistry.Hooks.InstallHook` | src/Hooks.cpp:40-79 | The whole new state: refused when sealed, owned or not patchable; otherwise patched, recorded and adopted |
| `HookRegistry.Hooks.AdoptHook` | src/Hooks.cpp:81-91 | The hook joins the list, disabled first if retirement has started; a failure of that is ignored |
| `HookRegistry.Hooks.InstallMidHook` | src/Hooks.cpp:93-107 | As for an inline hook, but no owner is asked for and none recorded |
| `HookRegistry.Hooks.AdoptMidHook` | src/Hooks.cpp:109-116 | The mid hook joins its own list, disabled first if retirement has started |
| `HookRegistry.Hooks.Find` | src/Hooks.cpp:118-126 | The first inline hook with the name, or none |
| `HookRegistry.Hooks.RetireByName` | src/Hooks.cpp:128-162 | Only the first hook of that name, inline before mid, is disabled and counted; an inactive one or a refusal changes nothing |
| `HookRegistry.Hooks.RetireAll` | src/Hooks.cpp:164-203 | The walk over both lists, position by position, whichever disables are refused |
| `HookRegistry.ApplyKeeps` | src/Hooks.cpp:21-203 | Every operation keeps memory the original under disjoint patches and keeps every inline target owned |
| `HookRegistry.RunKeeps` | src/Hooks.cpp:21-203 | The same over every disciplined history from a fresh registry |
| `HookRegistry.RetireExact` | src/Hooks.hpp:70-71 | On any registry, retirement answers true if and only if no hook is left active; active hooks plus the retired count is conserved |
| `HookRegistry.RetireRestoresExactly` | src/Hooks.cpp:164-203 | On any registry, a retirement that answers true leaves code original if and only if the last active hook over each address, inline hooks before mid hooks, saved the original byte |
| `HookRegistry.HistoryRestoresExactly` | src/Hooks.hpp:16-17 | The same after any history whatever, disciplined or not, from untouched code |
| `HookRegistry.RetireRestoresBytes` | src/Hooks.hpp:16-17 | A disciplined history meets that condition, so every byte of code memory is original again |
| `HookRegistry.InstallAccepted` | src/Hooks.cpp:40-62 | An install is accepted if and only if the registry is open, the bytes can be patched, and the first record for the target is absent or has the empty name |
| `HookRegistry.MidOverInlineLeavesJump` | src/Hooks.cpp:93-107 | A mid hook over an inline hook, at any two addresses: both installs and the retirement succeed, and memory is restored if and only if the inline jump is harmless under the mid hook's range |
| `HookRegistry.InlineOverMidRestores` | src/Hooks.cpp:164-203 | The other way round the walk restores in reverse order, and everything is restored |
| `HookRegistry.SecondInlineHook` | src/Hooks.cpp:46-62 | A second inline hook is accepted if and only if its target is another address or the first has the empty name; if accepted, memory is restored if and only if the first jump is harmless under it |
| `HookRegistry.NeighboursOverlap` | src/Hooks.cpp:31-38 | Two named inline hooks one byte apart are both accepted, the retirement succeeds, and code is not restored |
| `HookRegistry.EmptyNameOwnsNothing` | src/Hooks.cpp:46-56 | Two inline hooks on one target, the first without a name: the second is accepted and the first jump stays behind unless harmless |
| `HookRegistry.RetireOneExact` | src/Hooks.cpp:128-162 | Retiring by name succeeds if and only if the system allows it and the first hook of that name, inline before mid, is active; otherwise nothing changes |
| `HookRegistry.SealedOnlyRetires` | src/Hooks.hpp:74-75 | After sealing, no history adds a hook or a target, and active hooks plus the retired count is conserved over it |
| `HookProtocol.NextKeeps` | src/Hooks.cpp:40-203 | Every step of every thread keeps the protocol invariant: overlay, one owner per target, exact lists, retirement progress |
| `HookProtocol.RunKeeps` | src/Hooks.cpp:40-203 | The invariant holds after every disciplined interleaving of installers and shutdown |
| `HookProtocol.JumpIsClear` | src/Hooks.cpp:46-62 | When an installer patches, the owner check and the records keep its jump off every active patch on its own target |
| `HookProtocol.OriginalWhenUnmapped` | src/AgentRuntime.cpp:333-346 | While the module is unmapped, all code is original if and only if no installer is between patch and adoption and no failed late disable is still active |
| `HookProtocol.InFlightFaults` | src/AgentRuntime.cpp:344-346 | An installer in flight when the module goes faults at its next step |
| `HookProtocol.UnmapExactlySafe` | src/AgentRuntime.cpp:333-346 | Over every disciplined interleaving: from unmapping on, whatever happens, nothing faults and all code is original, if and only if nobody is in flight and no failed late disable is still active |
| `HookProtocol.UnmapsExactly` | src/Framework.cpp:12455-12482 | Over every run whatever, the module is unmapped if and only if at some event the scan answered that the other threads are clear, after a retirement in which no active hook was refused |
| `HookProtocol.NeverUnmapsUnasked` | src/AgentRuntime.cpp:333-351 | Without an answer that the threads are clear, no run ever unmaps the module |
| `HookProtocol.VerdictIsFinal` | src/AgentRuntime.cpp:333-351 | Once the scan has answered, the module is unmapped if all hooks were retired and the threads are clear, and otherwise stays mapped whatever happens later |
| `HookProtocol.InFlightShrinks` | src/Hooks.cpp:40-44 | After sealing, over any further events, the set of installers in flight only becomes smaller, and the seal stays |
| `HookProtocol.LateAdoptionDisables` | src/Hooks.cpp:81-90 | Over any run after retirement has begun, an installer adopted in it ends disabled or on record as refused, and disabled if the system refused nothing |
| `HookRefinement.StepsRefineInstall` | src/Hooks.cpp:40-107 | An installer whose steps nobody interrupts does what the registry's install or install_mid does in one go: same acceptance, code, records and lists |
| `HookRefinement.StepsRefineRetire` | src/Hooks.cpp:164-203 | The shutdown thread's walk under the lock does what the registry's retirement does: same verdict, hooks and code, whichever disables are refused |
| `HookRefinement.StepsRefineRetireOne` | src/Hooks.cpp:128-162 | Retiring one hook by name in the protocol does what the registry's retire_one does |
| `HookRefinement.ReachableLists` | src/Hooks.cpp:81-116 | In every reachable state the lists name installers and none of them twice |
| `HookReplay.QuietIsSequential` | src/Hooks.cpp:21-203 | Every disciplined interleaving's state with nobody in flight is that of a sequential history of the registry: same lists, hooks, code, flags and owner of every address, with only the records perhaps in another order |
| `HookReplay.SequentialExactly` | src/Hooks.cpp:74-78 | It is reached sequentially to the letter if and only if the records stand in the order of the inline list |
| `HookRaces.OvertakenRecord` | src/Hooks.cpp:74-78 | A disciplined run in which the second to record adopts first, so that no sequential history leaves that registry |
| `HookRaces.StragglerFaults` | src/Framework.cpp:12465-12475 | A disciplined run in which the scan is clear, all code is original and nothing loose when the module is unmapped, and an installer past its checks then faults |
| `HookRaces.RivalsLeaveJump` | src/Hooks.cpp:31-62 | Two concurrent installs at any two targets both pass the owner check; after a successful retirement and unmap, code is original if and only if the first jump was harmless under the second patch |
| `Walks.CountObjects` | shared/sdk/CClientMgr.cpp:247-268 | The count is the length of the reference walk, and fails where that fails or the bucket does not exist |
| `Walks.ForEachObject` | shared/sdk/CClientMgr.hpp:228-246 | The callback is handed the nodes the walk comes to, in order, up to and including the first it answers with a stop; the result is their number, or none if nothing stopped it and the walk fails |
| `Walks.ReachedFollows` | shared/sdk/CClientMgr.cpp:324-369 | What the walk comes to follows the links through well-typed nodes, never the head and never past the cap, stops only where the walk ends or fails, and is the whole walk when that succeeds |
| `Walks.UpToExact` | shared/sdk/CClientMgr.hpp:239-242 | Handing over stops after the first stopping answer and nowhere else |
| `Walks.SnapshotObjects` | shared/sdk/CClientMgr.cpp:282-320 | The buffer holds the snapshot specification's copies and never more than it has room for |
| `Walks.WalkExact` | shared/sdk/CClientMgr.cpp:247-268 | A walk succeeds with these nodes if and only if the links form a ring of them, well typed and at most the cap; the ring is unique and its nodes pairwise distinct |
| `Walks.SnapshotFromExact` | shared/sdk/CClientMgr.cpp:282-320 | A snapshot succeeds if and only if the walk does and the bodies to be copied are readable, and copies min(n, max) of them in order |
| `Walks.CompareWalks` | shared/sdk/CClientMgr.hpp:810-815 | On every heap, count and iteration agree; the snapshot agrees too if and only if the first max bodies are readable; all fail when there is no ring within the cap |
| `Walks.BodyFaultParts` | shared/sdk/CClientMgr.hpp:811-814 | A list that is counted and iterated and of which no snapshot can be taken |
| `Skeleton.CheckNodes` | shared/sdk/CClientMgr.cpp:1008-1092 | Each flag of the checker says exactly what it is documented to say about the array, and the links counted are those of the fitting blocks |
| `Skeleton.CertifiedIsTree` | shared/sdk/CClientMgr.hpp:449-467 | Up to 256 nodes the checks together imply that every non-root node lies in exactly one child block, that of its recorded parent |
| `Skeleton.CertificateBound` | shared/sdk/CClientMgr.cpp:972 | The checks certify a tree at a size if and only if that size is at most 256 |
| `Skeleton.ImpostorPasses` | shared/sdk/CClientMgr.cpp:1080-1085 | For every larger size, an array that passes every check although a node is its own child |
| `Skeleton.ChildCountIsTrue` | shared/sdk/CClientMgr.hpp:456-466 | In a tree each stored child count is the number of nodes naming that parent |
| `Skeleton.PathToRoot` | shared/sdk/Model.cpp:275-296 | The loop up the parent links, with its buffer limit, computes the recursive climb |
| `Skeleton.ClimbIsSound` | shared/sdk/Model.cpp:275-296 | On any data, a returned path starts at the node, follows recorded parents strictly downwards and ends at a sentinel |
| `Skeleton.ClimbReachesRoot` | shared/sdk/Model.cpp:472-483 | In a certified array the climb always succeeds and is the parent chain down to node 0 |
| `Skeleton.ForwardPass` | shared/sdk/CClientMgr.hpp:449-451 | In topological order one forward pass gives every node the transform its parent chain defines, whatever the composition |
| `Skeleton.ThroughChild` | shared/sdk/CClientMgr.hpp:460-464 | In a tree, k is an ancestor-or-self of j if and only if j is k or below one of the nodes in k's block |
| `Skeleton.DescendIsWorld` | shared/sdk/CClientMgr.hpp:460-462 | Descending child blocks from k visits exactly k's descendants, and carries to each the transform of its parent chain |
| `Skeleton.DescentAgreesWithForwardPass` | shared/sdk/CClientMgr.hpp:449-467 | In a certified array, descending from the root and the forward pass give every node the same transform |
| `NodeNames.NameEqualsI` | shared/sdk/CClientMgr.cpp:940-957 | Two C strings compare equal if and only if they have one length, below the limit, and at every position the same character or one letter A to Z in its two cases |
| `NodeNames.CheckHashes` | shared/sdk/CClientMgr.cpp:1094-1166 | The tallies over the fixed arrays are those of the specification's table of first sightings |
| `NodeNames.NamesakesShareRow` | shared/sdk/CClientMgr.cpp:1119-1137 | Two nodes, one of them in the table, share a row if and only if their names differ in nothing but letter case |
| `NodeNames.ConsistencyUpToCase` | shared/sdk/CClientMgr.cpp:1119-1143 | With room for every node, all names count as consistent if and only if any two nodes whose names differ only in letter case carry one hash |
| `NodeNames.TwoNodes` | shared/sdk/CClientMgr.cpp:1094-1166 | Two nodes: one distinct name and, if the hashes differ, one consistent of two where the names differ only in case; two and two otherwise |
| `NodeNames.ConsistencyExact` | shared/sdk/CClientMgr.cpp:1119-1143 | For any table size, full or not, every name counts as consistent if and only if any two sightings of one name in the table carry one hash |
| `NodeNames.HashesIdentifyNames` | shared/sdk/CClientMgr.cpp:1156-1166 | For any table size, all consistent and no collision reported, if and only if among the names in the table equal names have equal hashes and equal hashes belong to equal names |
| `NodeNames.ConsistencySoundExactly` | shared/sdk/CClientMgr.cpp:1119-1143 | The consistency reading is right for every assignment of hashes if and only if every name sighted more than once is among the first distinct names that fit |
| `NodeNames.IdentitySoundExactly` | shared/sdk/CClientMgr.cpp:1119-1166 | Both readings together are, if and only if every sighted name is among them or there is but one sighting |
| `NodeNames.FullTableHidesMismatch` | shared/sdk/CClientMgr.cpp:1130-1137 | With a full table, a new name seen with two different hashes still counts as consistent |
| `NameHash.HashName` | shared/sdk/DatabaseMgr.cpp:186-200 | The loop computes the specification's hash, and has none when the module is absent or a fold byte cannot be read |
| `NameHash.HashIsPolynomial` | shared/sdk/DatabaseMgr.cpp:186-200 | The hash exists if and only if every byte can be folded, and is the base-919 polynomial of the folded bytes modulo 2^32 |
| `NameHash.HashOfAppend` | shared/sdk/DatabaseMgr.cpp:193-197 | The empty name hashes to 0, and one more byte makes 919 times the hash plus the folded byte, modulo 2^32 |
| `NameHash.HashOfConcat` | shared/sdk/DatabaseMgr.cpp:186-200 | H(a + b) = H(a) * 919^len(b) + H(b) modulo 2^32 |
| `NameHash.EqualFoldsHashAlike` | shared/sdk/DatabaseMgr.cpp:193-197 | Names that fold alike have equal hashes |
| `Grouping.TransitionsExact` | shared/sdk/DatabaseMgr.cpp:459-461 | Counting transitions never undercounts distinct values, and is right if and only if equal values stand together |
| `NameIndexing.BinarySearchByHash` | shared/sdk/DatabaseMgr.cpp:287-310 | The loop computes the recursive search, and a hit carries the wanted key whatever the data |
| `NameIndexing.SearchComplete` | shared/sdk/DatabaseMgr.cpp:287-310 | Over ascending keys a key is found if and only if it is there |
| `NameIndexing.FindRecord` | shared/sdk/DatabaseMgr.cpp:339-360 | On any data, even unsorted, what is returned has the name asked for |
| `NameIndexing.RecordsSortedByHash` | shared/sdk/DatabaseMgr.cpp:394-414 | True if and only if every stored hash is readable and they ascend |
| `NameIndexing.RecordHashAgreement` | shared/sdk/DatabaseMgr.cpp:259-280 | Compared, agreeing and skipped are the specification's tallies over all categories |
| `NameIndexing.TallyAllClean` | shared/sdk/DatabaseMgr.cpp:259-280 | Nothing skipped and all agreeing, if and only if every record's stored hash is the hash of its name |
| `NameIndexing.UnanimousExactly` | shared/sdk/DatabaseMgr.cpp:259-280 | Every entry is compared or skipped; a unanimous tally without skips, if and only if there are entries and all of them agree |
| `NameIndexing.HashCollisions` | shared/sdk/DatabaseMgr.cpp:416-451 | The three counters are the readable records and their adjacent same-hash pairs with different and with equal names |
| `NameIndexing.ReportAllZero` | shared/sdk/DatabaseMgr.cpp:416-451 | Zero collisions in the report if and only if no category has a colliding adjacent pair |
| `NameIndexing.NoCollisionAnywhere` | shared/sdk/DatabaseMgr.cpp:422-423 | Sorted and agreeing, a clean adjacent-only scan means that no two records anywhere share a hash under different names |
| `NameIndexing.CollisionHidesAName` | shared/sdk/DatabaseMgr.cpp:355-358 | A colliding pair makes one of its two names unfindable |
| `NameIndexing.CertificateExact` | shared/sdk/DatabaseMgr.cpp:339-451 | Sorted and agreeing, every query is answered as a linear scan would if and only if the adjacent scan is clean |
| `NameIndexing.DatabaseCertificate` | shared/sdk/DatabaseMgr.cpp:259-451 | Sortedness, unanimous agreement with nothing skipped and zero collisions, as measured, certify lookup in every category |
| `NameIndexing.SortednessNeeded` | shared/sdk/DatabaseMgr.cpp:287-310 | Without sortedness the other two measurements pass and a present name is not found |
| `NameIndexing.AgreementNeeded` | shared/sdk/DatabaseMgr.cpp:221-238 | Without agreement the other two measurements pass and a present name is not found |
| `NameIndexing.DistinctNameCount` | shared/sdk/DatabaseMgr.cpp:454-474 | The loop counts the positions where the name changes |
| `NameIndexing.NameIsUniqueKey` | shared/sdk/DatabaseMgr.cpp:476-482 | True if and only if the name changes at every record |
| `NameIndexing.DistinctNamesExact` | shared/sdk/DatabaseMgr.cpp:454-482 | On a certified category that count is the size of the name set, and names are a unique key if and only if pairwise different |
| `NameIndexing.FindInDatabaseNeverWrong` | shared/sdk/DatabaseMgr.cpp:362-370 | On any data a two-level hit carries both names asked for |
| `NameIndexing.FindInDatabaseExact` | shared/sdk/DatabaseMgr.cpp:362-370 | With both levels certified and category names unique, a two-level lookup hits if and only if such a record exists |
| `NameIndexing.UniqueNameFound` | shared/sdk/DatabaseMgr.cpp:476-482 | Where names are a unique key, looking up an entry's name returns that very entry |
| `Attributes.PackedRoundTrip` | shared/sdk/DatabaseMgr.cpp:579-592 | Reading every element over a blob packed from booleans returns those booleans, across dword boundaries and address wrap-around |
| `Attributes.PackThenRead` | shared/sdk/DatabaseMgr.cpp:579-592 | Any booleans can be packed into dwords and read back one by one |
| `Attributes.LinksRoundTrip` | shared/sdk/DatabaseMgr.cpp:605-616 | Reading every element of a link attribute over a blob of dwords returns those dwords, null ones as no record |
| `Attributes.AttributeReadBack` | shared/sdk/DatabaseMgr.cpp:509-536 | An attribute stored in a descriptor is read back at its index whatever the two flags above its kind; only records of at most 4096 attributes have any |
| `Attributes.SamePlaceIsSameBit` | shared/sdk/DatabaseMgr.hpp:378-391 | Two elements of one blob share address and bit if and only if they are the same bit of the blob, in 32-bit address arithmetic |
| `Attributes.FindAttribute` | shared/sdk/DatabaseMgr.cpp:509-555 | A hit carries the name's hash and has both pointers and all four descriptor fields readable; over ascending descriptors whose carriers of the hash are complete, there is a hit if and only if there is a carrier |
| `NameRecovery.NameIndex.Build` | shared/sdk/DatabaseMgr.cpp:736-800 | The index holds the first candidate seen for each hash; it is built once, and not before the module is there |
| `NameRecovery.NameIndex.ScanSection` | shared/sdk/DatabaseMgr.cpp:759-795 | Scanning one section adds exactly its emitted candidates, in order |
| `NameRecovery.NameIndex.NameForHash` | shared/sdk/DatabaseMgr.cpp:802-810 | Whatever is returned hashes back to the hash asked for |
| `NameRecovery.LookupExact` | shared/sdk/DatabaseMgr.cpp:802-810 | A hash resolves if and only if some candidate has it, and to a candidate that has it |
| `NameRecovery.MaximalRunEmits` | shared/sdk/DatabaseMgr.cpp:766-793 | What a maximal printable run of n bytes contributes, exactly: its last n % 97 bytes and that tail's suffixes, if long enough |
| `NameRecovery.RunsResolve` | shared/sdk/DatabaseMgr.cpp:774-792 | Every maximal run of 3 to 96 bytes ended by NUL in a data section resolves, and so do its suffixes dropping up to three bytes |
| `NameRecovery.RecoveredNamesAreText` | shared/sdk/DatabaseMgr.cpp:746-757 | Every recovered name is 3 to 96 printable bytes standing before a NUL in some data section |
| `Bindings.DecodeRange` | shared/sdk/Actions.cpp:63-92 | Joystick and gamepad objects never decode, mouse objects only as one of five buttons, keys only to virtual keys below the mouse range |
| `Bindings.DecodeInverse` | shared/sdk/Actions.cpp:39-92 | No two keys share an input: what decodes to a key is its one name, its letter in either case, or a function key's number |
| `Bindings.DecodeOfName` | shared/sdk/Actions.cpp:39-84 | Every such name decodes back to its virtual key |
| `Bindings.MouseButtons` | shared/sdk/Actions.cpp:54-58 | Each of the five buttons decodes to its own input, 0x100 to 0x104 in order, and no other name does |
| `Bindings.LetterKeys` | shared/sdk/Actions.cpp:69-78 | Every letter, in either case, decodes to its upper-case virtual key |
| `Bindings.FunctionKeys` | shared/sdk/Actions.cpp:84-89 | A name decodes to the n-th function key if and only if it is Key F and the decimal number n, up to blanks, a plus sign and zeros before it and a non-digit after it |
| `Bindings.ParseTable` | shared/sdk/Actions.cpp:172-214 | For every file and offset, no index leaves the buffer, and the result is the specification's parse |
| `Bindings.EncodeOfParse` | shared/sdk/Actions.cpp:185-211 | Accepted bytes are exactly the serialisation of what is returned |
| `Bindings.ParseOfEncode` | shared/sdk/Actions.cpp:185-211 | Parsing a serialised list, wherever it stands in a file, returns the list |
| `Bindings.ParseExact` | shared/sdk/Actions.cpp:166-214 | The parser returns these bindings if and only if their serialisation, count included, stands there byte for byte |
| `Bindings.ValidExactly` | shared/sdk/Actions.cpp:191-208 | A record is taken for part of a table if and only if its name has 1 to 64 characters, begins with one of the four kinds and its command is at most 4096 |
| `Bindings.FindTable` | shared/sdk/Actions.cpp:254-267 | The first candidate offset that parses completely, and none only if no offset does |
| `Bindings.TableFoundExactly` | shared/sdk/Actions.cpp:254-266 | A table is accepted where it stands if and only if its first record is a key or mouse object, and with no candidate bytes before it is then the one found |
| `Bindings.AcceptedInFile` | shared/sdk/Actions.cpp:172-214 | In a file that is exactly one table, the accepted offsets are exactly the beginnings of key or mouse records before which a possible count stands that the remaining records can meet |
| `Bindings.ScanOfFile` | shared/sdk/Actions.cpp:254-267 | What the scan returns on such a file: the records from the first such offset on, as many as the count says, or nothing |
| `Bindings.JoystickFirst` | shared/sdk/Actions.cpp:206-208 | If the first record is a joystick or gamepad object, the parser accepts the whole table and the scan returns a proper part of it or nothing |
| `Bindings.InnerTableParses` | shared/sdk/Actions.cpp:168-171 | Inside a table, a record whose command is a possible count is followed by a run that parses as a table of its own |
| `Bindings.InputFor` | shared/sdk/Actions.cpp:288-317 | The first usable input other than Alt; Alt only if nothing else is bound; none only if nothing is |
| `Scanners.StripComments` | tools/check_formats.py:62-98 | The token-skipping loop computes what a one-character automaton gives, on every text |
| `Scanners.LiteralKept` | tools/check_formats.py:76-83 | A literal in single or double quotes is kept as it is, escapes included, and the scan goes on after it; an unterminated one is kept to the end |
| `Scanners.EscapeKept` | tools/check_formats.py:72-75 | A backslash outside literals keeps the next character from opening anything |
| `Scanners.LineCommentSpaced` | tools/check_formats.py:84-89 | A line comment becomes blanks up to the newline or the end, and the scan goes on there |
| `Scanners.BlockCommentSpaced` | tools/check_formats.py:90-95 | A block comment becomes blanks and its own newlines up to the first closing mark, and the scan goes on after it; an unterminated one to the end |
| `Scanners.OtherKept` | tools/check_formats.py:96-97 | Any other character is kept, a slash too unless a slash or star follows |
| `Scanners.StripPreserves` | tools/check_formats.py:62-68 | Length and every newline stay in place; nothing outside a comment changes; inside, only blanks and newlines remain |
| `Scanners.StripIdempotent` | tools/check_formats.py:62-98 | Blanking twice is blanking once, unterminated literals and comments included |
| `Scanners.SplitTopLevel` | tools/check_formats.py:35-59 | The loop computes what a one-character automaton with quote, escape and depth state gives |
| `Scanners.SplitLosesNothing` | tools/check_formats.py:35-59 | Joining the pieces with commas gives the text back; there is one piece more than top-level commas; no piece splits further |
| `Scanners.SplitOfJoin` | tools/check_formats.py:35-59 | Splitting a join of unsplittable pieces returns those pieces, so the split is the only such way to write a text |
| `Scanners.SplitOfArguments` | tools/check_formats.py:35-59 | Of any arguments made up of characters, escapes, literals in either quote and bracketed groups nested to any depth, their list splits into exactly those arguments |
| `Scanners.SplitAfterLiteral` | tools/check_formats.py:43-49 | No comma inside a literal separates, and the one after it does |
| `Scanners.SplitAfterBrackets` | tools/check_formats.py:50-57 | Nor does a comma inside a pair of brackets of any of the three kinds, and the one after it does |
| `Console.All` | shared/sdk/Console.cpp:156-190 | The commands at the walked nodes in order, cut at a non-zero limit |
| `Console.RegistryReadBack` | shared/sdk/Console.cpp:107-190 | A registry of no more commands than the walk allows, laid out six dwords to a command and linked in order, is listed exactly: every command with its name, handler, flags and origin, and nothing else |
| `Console.ObjectListedExactly` | shared/sdk/Console.cpp:107-154 | An object counts as consistent if and only if it is not null, its fifth dword names it and neither link is null; it is listed if and only if its name can be read too |
| `Console.GetStats` | shared/sdk/Console.cpp:249-302 | Every counter is the number of walked nodes of its kind, the cap flag says that the walk was cut, and distinct names are the size of the name set |
| `Console.Unique` | shared/sdk/Console.cpp:298-300 | Dropping repeated neighbours of a sorted list leaves as many names as there are distinct ones |
| `Console.Census` | shared/sdk/Console.cpp:156-302 | Listing and counting agree; nodes walked split into commands, inconsistent and unreadable ones; totals split exactly by module and by origin |
| `Gate.RunKeepsInvariant` | src/AgentRuntime.cpp:132-150 | Over every interleaving release, once set, stays set, and only an armed gate parks threads |
| `Gate.ReachableNeverDeadlocks` | src/AgentRuntime.cpp:293-302 | In every reachable state an armed gate is released exactly if the supervisor has gone on to wait for the module, so that it never waits while threads are held; nothing is parked without an armed gate |
| `Gate.GateIsReleased` | src/AgentRuntime.cpp:274-302 | After 30004 supervisor steps an armed gate is released, whatever the interleaving |
| `Gate.ParkedThreadLeaves` | src/AgentRuntime.cpp:141-149 | Under fair scheduling a parked thread leaves the gate, with its own breakpoint cleared and every other bit of DR7 kept |
| `Gate.EveryThreadLives` | src/AgentRuntime.cpp:132-193 | Over every run a thread is what the order of events makes of it: armed short of the entry point and come there, it stands parked with the breakpoint until it looks at the set release flag, and then has exactly the breakpoint cleared; unarmed or armed too late, it passes |
| `Gate.HitExactly` | src/AgentRuntime.cpp:141-143 | The hit flag is set if and only if some thread has come to the entry point after it was armed short of it |
| `Gate.GatedExactly` | src/AgentRuntime.cpp:154-216 | The gate is armed if and only if its installation could arm some thread |
| `Gate.BreakpointBits` | src/AgentRuntime.cpp:147-184 | Arming enables slot 0 at the address as a one-byte execute watch, disarming empties and disables it; every other bit of DR7 stays |
| `Gate.PatientAtGate` | src/AgentRuntime.cpp:273-277 | The supervisor leaves an armed gate only when a thread has been caught or 30000 polls are used up |
| `Gate.CaughtMeansSoonReleased` | src/AgentRuntime.cpp:273-302 | Once a thread has been caught, three more supervisor steps release the gate, whatever else happens |
| `Gate.DecryptWaitExactly` | src/AgentRuntime.cpp:281-291 | If nobody could be armed, the supervisor goes on if and only if it has seen plaintext or polled 4000000 times |
| `Gate.ModuleWaitExactly` | src/AgentRuntime.cpp:303-312 | The last wait ends if and only if a supervisor step finds the module or it is known already, or after 60000 polls |
| `Gate.LoadedExactly` | src/AgentRuntime.cpp:54-85 | The module counts as known if and only if the loader has announced it or registering the notification found it there |
| `Gate.OnlyOwnRegisters` | src/AgentRuntime.cpp:132-150 | Over any run after installation in which a thread neither reaches the gate nor polls there, its place and debug registers stay |
| `Gate.OnlyReleaseFrees` | src/AgentRuntime.cpp:293-302 | Without a supervisor step no event frees a parked thread, which is why release must come before the wait |

## Left out

- Bindings.Atoi: the program's `atoi` is undefined outside the range of int; here the number is unbounded, and any value outside 1 to 24 decodes to nothing either way.
- Bindings.InputFor: reads an already loaded table; finding the profile, its timestamp and reloading are not part of this model. `weapon_slot_input` only picks the command and is left out.
- NameIndexing.Find: `find_category` has the same shape as `find_record`, so one definition stands for both.
- NameIndexing.FindRecord: names are what the name reader returns, an empty string when it faults; its 260-byte limit and sanitising are not modelled.
- NodeNames.IdentitySoundExactly: for a table no larger than the number of hashes, which is 2^32; a fuller one always reports a collision.
- Attributes.AttributeRecord: float and text elements are read from the same address as links, and structs through a pointer there; neither is modelled.
- Attributes.FindAttribute: the descriptors a record declares are given, one per declared index; the count is read once, not once in the lookup and once more at the hit.
- NameRecovery.NameIndex.Build: the module is given as its list of sections; locating sections and the count of scanned strings are left out.
- Console.Sort: the library's sort is modelled by an insertion sort; only that it sorts and keeps the multiset is used.
- Console.ReadObject: the attribution of a command to a module other than the executable is left out, as it affects no counter.
- Walks.SnapshotObjects: a snapshot's fields are copied together; the order of the individual reads within one node is not modelled, nor is a null buffer.
- Skeleton.CheckNodes: the floating-point checks, which the certificate does not use, are left out; so is the check that the array lies inside the asset's blob.
- HookProtocol.Next: a call into the unmapped module by a thread that was not installing is not modelled, only installers in flight are; memory is written in one step per patch; a thread executing a half-written patch, trampolines and instruction relocation are not modelled.
- Real concurrency of `m_targets` itself (reading the vector while another thread grows it) is left out; a read sees some whole vector.
- Locks are modelled by making a locked region one step, or by disabling the steps that need the lock while retirement holds it.
- The scan over other threads is modelled by its verdict, not by suspending threads.
- Process creation and injection, pattern scanning, virtual calls, module lookup, input, engine variables, events and delegates: fixed offsets, single branches, or walks of the shape proved here.
- The remaining model checks over assets (transforms, materials, volumes, attachments): comparisons with tolerances.
- Logging, the HTTP client, the exception handler, disassembler scripts and interface generators: input, output and reporting.
