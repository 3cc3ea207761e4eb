# A Dafny model of c4c

c4c is a C compiler written in C++. This project models four of its parts and proves what they
promise: the name and storage tables, the analyses of one basic block of its intermediate
representation (BIR), the chain of records that certifies an array index as in bounds, and the
RV64 disassembler and assembler. `dafny verify dfyconfig.toml` checks everything.

## The parts

**Names and storage.** `SequenceMap.dfy` is the chained hash map with index links, swap-with-last
erase and rehash at three quarters load. A ghost list of chains partitions the entries by bucket;
every operation keeps it, and any run of calls replies as a finite map does, whatever the hash.
`Interning.dfy` states what an interning table promises over whole runs. `NameTables.dfy` proves the
byte-pool string table, the key table, the semantic table on top and the copyable bundle of them
against it; `ScopedNames.dfy` does so for path interning and for the lexical scope stack.
`Arena.dfy` is the bump allocator. Its size mask has 32 bits, so a reservation is large enough
exactly for requests of at most 2^32 - 8 bytes.

**Block analyses.** `Bir.dfy` gives blocks a small-step semantics: words by value name and bytes by
slot. On it, `Folds.dfy` and `Route1.dfy` prove the constant evaluator sound at each width, exactly where
not truncating is harmless, say exactly when it returns a constant, and relate it to the second
evaluator in `bir.cpp`; `Route2.dfy` characterizes the direct-global search and its index; `Route3.dfy` proves
load freshness and store-to-load forwarding byte by byte; `Route4.dfy` and `Route8.dfy` prove the
publication index and the return-chain index exact, duplicates included.

**Bounds certificates.** `LocalArrayGep.dfy` follows a guard from its branch to the semantic GEP.
An available certificate is not always a proof, for two reasons. The bound is read off the branch
predicate without regard to the edge that is taken
(`src/backend/prealloc/publication_plans.cpp:6062-6112`); `FalseEdgeCounterexample` shows one, and
`CertificateExact` says when the guard proves. And the effect scan skips sources outside the layout
interval between guard and address (`src/backend/bir/bir_local_array_semantic_gep.hpp:1213-1216`),
though code laid out elsewhere may run in between; `SkippedSourceCounterexample` shows one, and
`CleanScanExact` says when the scan proves. `ChainExact` joins the two, and `CertifiedExact` says
exactly when the chain is available at all. The GEP stage compares one
element with the object, not the array; `AddressedElementExact` says when that is enough.
`MemoryProvenance.dfy` is the byte-range arithmetic beside it.

**RV64 tools.** `Rv64Bits.dfy` relates words to the integers they stand for. `Rv64Isa.dfy` has the
word decoders, the printed form as operand tokens and the line parser and encoder, and proves that
no format loses a bit. `Rv64Objdump.dfy` and `Rv64As.dfy` are the two programs on tokenized lines,
and `Rv64RoundTrip.dfy` proves both round trips between them. `Rv64Listing.dfy` says what is listed for
each word and that an assembled line is listed as itself; `Rv64Source.dfy` says both of whole texts.

Functions are used where the source computes a value, methods and classes where it loops or updates
in place. A C++ pointer into a block is an instruction index; a pointer between records is an
address with its target. Integer widths are written out where they matter.

## Model

| member | source | states |
|---|---|---|
| `SequenceMaps.SequenceMap.Run` | src/shared/sequence_map.hpp:71-206 | over any run of insert, update through a mutable view, erase and find the replies and the contents are those of an insert-if-absent finite map; the chain partition, 4*entries < 3*buckets and a power-of-two bucket count hold at the end |
| `SequenceMaps.SequenceMap.FindIndex` | src/shared/sequence_map.hpp:81-93 | the chain walk returns the entry of the key, and none exactly when the key is absent |
| `SequenceMaps.SequenceMap.Insert` | src/shared/sequence_map.hpp:95-106 | insert-if-absent; an empty key is appended every time and never found |
| `SequenceMaps.SequenceMap.Update` | src/shared/sequence_map.hpp:142-158 | writing through the view of a found key changes that binding and no other |
| `SequenceMaps.SequenceMap.Rehash` | src/shared/sequence_map.hpp:191-203 | all chains are rebuilt for the new bucket count, contents unchanged |
| `SequenceMaps.DoubleFits` | src/shared/sequence_map.hpp:181-189 | doubling a power-of-two bucket vector of fewer than 2^31 buckets leaves one whose every bucket number fits `int32_t` |
| `SequenceMaps.SequenceMap.Erase` | src/shared/sequence_map.hpp:110-139 | the binding and only that binding disappears, also when the moved entry is the removed one's chain predecessor |
| `SequenceMaps.SequenceMap.SwapRemove` | src/shared/sequence_map.hpp:116-136 | unlink, move the last entry into the hole, redirect every head and link to it, pop |
| `SequenceMaps.EraseRepresents` | src/shared/sequence_map.hpp:116-136 | after unlink, move and redirect the chains again partition all remaining entries by bucket |
| `SequenceMaps.PartitionUnlink` | src/shared/sequence_map.hpp:119-119 | redirecting one link past an entry takes exactly that entry out of its chain |
| `SequenceMaps.PartitionMove` | src/shared/sequence_map.hpp:121-133 | renumbering the last entry to the hole in heads, links and chains keeps every chain a chain |
| `SequenceMaps.ContentsSwapRemove` | src/shared/sequence_map.hpp:110-139 | swap-with-last removes one key from the abstract map and keeps all others |
| `Interning.InternRunDenotes` | src/shared/text_id_table.hpp:40-47 | every id a run of intern calls returned still denotes its key at the end of the run |
| `Interning.InternRunIsBijection` | src/shared/text_id_table.hpp:40-47 | over any run two calls get the same id exactly when they passed the same key |
| `NameTables.SlicesDisjoint` | src/shared/text_id_table.hpp:82-96 | stored spellings share no byte, not even a terminator |
| `NameTables.StringIdTable.Find` | src/shared/text_id_table.hpp:71-80 | the id of a spelling under any hash collisions, invalid exactly when it is not stored |
| `NameTables.StringIdTable.Intern` | src/shared/text_id_table.hpp:82-95 | appends one NUL-terminated slice for a new spelling and nothing otherwise; slices keep tiling the pool |
| `NameTables.StringIdTable.InternRun` | src/shared/text_id_table.hpp:82-95 | any run returns the ids of the same run on a plain list of distinct keys |
| `NameTables.StringIdTable.CStrReadsSpelling` | src/shared/text_id_table.hpp:103-108 | a C reader sees the stored spelling exactly when the spelling holds no NUL |
| `NameTables.KeyIdTable.Intern` | src/shared/text_id_table.hpp:40-48 | ids count up in order of first use; the default key is never stored |
| `NameTables.KeyIdTable.InternRun` | src/shared/text_id_table.hpp:40-48 | any run returns the ids of the same run on a plain list of distinct keys |
| `NameTables.SemanticNameTable.Intern` | src/shared/text_id_table.hpp:163-171 | interning grows the text table and the id list and the new id spells the name |
| `NameTables.NameTables.Copy` | src/backend/bir/bir.hpp:25-31 | a copy owns all its storage, reads its own text table, hashes alike and holds the same lists as the original |
| `NameTables.NameTables.SpellsAlike` | src/backend/bir/bir.hpp:25-31 | bundles with the same lists, such as a copy and its original, spell every id of every table alike |
| `NameTables.NameTables.AssignFrom` | src/backend/bir/bir.hpp:41-51 | copy assignment, self-assignment included, ends with the spellings of the other bundle |
| `NameTables.NameTables.InternRun` | src/shared/text_id_table.hpp:163-171 | any run of interns in the three tables returns the ids of the same run on plain lists, and a bundle with its own storage keeps all its lists |
| `NameTables.NamedAllSpells` | src/shared/text_id_table.hpp:163-181 | each id a run returned spells its name at the end of the run, though all three tables share one text table |
| `NameTables.NamedAllKeeps` | src/shared/text_id_table.hpp:163-181 | no run changes an existing spelling of any of the three tables |
| `ScopedNames.NamePathTable.Intern` | src/shared/qualified_name_table.hpp:43-51 | paths get stable ids in order of first use, and the id denotes the path |
| `ScopedNames.NamePathTable.InternRun` | src/shared/qualified_name_table.hpp:43-51 | any run returns the ids of the same run on a plain list of distinct paths |
| `ScopedNames.NamePathTable.Append` | src/shared/qualified_name_table.hpp:57-67 | the returned id denotes the prefix path followed by the segment |
| `ScopedNames.LocalNameTable.BindInCurrentScope` | src/shared/local_name_table.hpp:84-92 | binds in the innermost scope unless bound there, opening one if none is open; every other scope stays |
| `ScopedNames.LocalNameTable.EraseInCurrentScope` | src/shared/local_name_table.hpp:94-101 | erases from the innermost scope only; all scopes stay open |
| `ScopedNames.LocalNameTable.FindNearestVisible` | src/shared/local_name_table.hpp:140-146 | the value bound by the innermost scope that binds the key |
| `ScopedNames.LocalNameTable.FindNearestVisibleScopeIndex` | src/shared/local_name_table.hpp:157-164 | the innermost scope that binds the key, or the number of scopes |
| `ScopedNames.LocalNameTable.Run` | src/shared/local_name_table.hpp:72-101 | any run of push, pop, bind and erase leaves the stack of the same run on plain maps |
| `ScopedNames.LocalNameTable.LookupAroundBlock` | src/shared/local_name_table.hpp:72-146 | whatever a bracketed block binds or erases, looking a key up after it gives what looking it up before it gave |
| `ScopedNames.VisibleAtInnermost` | src/shared/local_name_table.hpp:140-164 | the scope index query names the scope whose binding the lookup returns |
| `ScopedNames.BracketRestores` | src/shared/local_name_table.hpp:72-101 | any well-bracketed push ... pop of binds and current-scope erases restores the whole stack |
| `Arenas.ReservationExact` | src/frontend/arena.cpp:28-29 | a reservation holds the request exactly when the request is at most 2^32 - 8 bytes |
| `Arenas.Arena.NewBlock` | src/frontend/arena.cpp:16-25 | the new block is in front, empty, of the larger of the two sizes; nothing else changes |
| `Arenas.Arena.Alloc` | src/frontend/arena.cpp:27-39 | the next bytes of the head block if they are enough, else the first of a new one; 8-aligned, apart from all earlier ones, zeroed; no byte of an earlier one changes |
| `Arenas.Arena.AllocAll` | src/frontend/arena.cpp:27-39 | over any run of requests each gets its own reservation and all are still zero at the end |
| `Arenas.Arena.Strdup` | src/frontend/arena.cpp:50-55 | the string and its NUL in a reservation of their own, earlier ones untouched |
| `Arenas.Arena.FreeAll` | src/frontend/arena.cpp:57-65 | every block is released exactly once and the arena is empty |
| `Route1.BuildProducerIndex` | src/backend/bir/bir_route1.cpp:342-381 | exactly the records of the block's producers, in order |
| `Route1.FindScalarProducer` | src/backend/bir/bir_route1.cpp:383-416 | the reverse scan finds the last producer of that name and type before the position, none exactly when there is none |
| `Folds.FoldSound` | src/backend/bir/bir_route1.cpp:75-257 | for each opcode and each width the folded constant is the one word the operation can leave (modular, bitwise, shifts with sign fill, division rounding toward zero, comparisons), for operands that fit as the operation reads them or operations on low bits |
| `Folds.FoldExact` | src/backend/bir/bir_route1.cpp:75-257 | for any operands the 64-bit fold is right at the width of the type exactly when the operation has a result there and truncating the operands first would not change its word |
| `Route1.EvaluateSound` | src/backend/bir/bir_route1.cpp:27-260 | in every run a returned constant is the word the value holds before the position, at 8, 16, 32 and 64 bits, if each producer visited folds as if truncated and none is redefined before its use |
| `Route1.PlainBlockUndisturbed` | src/backend/bir/bir_route1.cpp:27-260 | a block that defines each name once, with 64-bit operands or operations on low bits only, meets that condition for every query |
| `Route1.UndefinedOnlyByOverflow` | src/backend/bir/bir_route1.cpp:147-177 | the evaluator meets undefined C++ arithmetic only through INT64_MIN / -1 or INT64_MIN % -1 |
| `Route1.ShadowedName` | src/backend/bir/bir_route1.cpp:383-416 | a run of a block that redefines a visited name, in which the returned constant is wrong |
| `Route1.NarrowOverflow` | src/backend/bir/bir_route1.cpp:75-257 | a run of a 32-bit block in which the returned constant is wrong because the evaluator does not truncate |
| `Route1.EvaluateExact` | src/backend/bir/bir_route1.cpp:27-260 | a constant is returned exactly when the expression behind the value has immediate leaves, folds at every node and has at most five levels, and it is that expression's value |
| `Route1.FiveLevels` | src/backend/bir/bir_route1.cpp:35-41 | both evaluators fold a chain of five additions and refuse one of six |
| `Route1.FindUniqueComparisonProducer` | src/backend/bir/bir.cpp:68-97 | the last producer, and whether there is an earlier one |
| `Route1.SignedBitsAgree` | src/backend/bir/bir.cpp:143-148 | the signed bitwise operators agree with the unsigned ones on the same words |
| `Route1.ComparisonRefinesRoute1` | src/backend/bir/bir.cpp:99-160 | whatever the comparison evaluator returns, the route 1 evaluator returns at the same position and depth |
| `Route1.EvaluatorsAgree` | src/backend/bir/bir.cpp:99-160 | where no value has two producers and only common opcodes occur, both evaluators give the same answer |
| `Route1.EvaluateComparisonExact` | src/backend/bir/bir.cpp:99-160 | the comparison evaluator returns a constant exactly for such an expression with one producer per value and common opcodes only |
| `Route2.SearchIsLeftmostLeaf` | src/backend/bir/bir_route2.cpp:61-123 | the search returns the leftmost leaf that is not a local load, of the first 65 levels of the operand tree |
| `Route2.NoGlobalLoadExact` | src/backend/bir/bir_route2.cpp:61-123 | "no global load" is answered exactly when every leaf of those levels is a local load; a found load is one of the leaves |
| `Route2.LimitNotReached` | src/backend/bir/bir_route2.cpp:66-71 | the depth limit cuts no tree of up to 65 levels, so no query over the first 65 instructions |
| `Route2.SixtyFiveLevels` | src/backend/bir/bir_route2.cpp:66-71 | a chain of 65 levels is followed to its end and one of 66 is not |
| `Route2.RecordExact` | src/backend/bir/bir_route2.cpp:127-165 | a record exists exactly for a value with a producer; it names the last one, the global its root loads, and as dependency the leftmost leaf, which is a load of that name before the position |
| `Route2.BuildValueIndex` | src/backend/bir/bir_route2.cpp:167-192 | one record per producer of a named value, each the query right after it |
| `Route2.RecordStable` | src/backend/bir/bir_route2.cpp:127-165 | asking right after the root or at any later position gives the same record |
| `Route2.FindValueRecord` | src/backend/bir/bir_route2.cpp:194-218 | looking a value up in the index equals computing its record directly |
| `Route3.BuildAccessIndex` | src/backend/bir/bir_route3_memory.cpp:231-244 | exactly the records of the block's addressed accesses, in order |
| `Route3.AccessExact` | src/backend/bir/bir_route3_memory.cpp:135-195 | the accesses are exactly the loads and stores with an address that is no label, and a record copies the address, the loaded and the stored value |
| `Route3.OverlapExact` | src/backend/bir/bir_route3_memory.cpp:118-131 | where the ends fit int64, ranges overlap exactly when they share a byte |
| `Route3.OverlapWraps` | src/backend/bir/bir_route3_memory.cpp:118-131 | two accesses past int64 that share bytes and are found apart |
| `Route3.SameBlockLoadSource` | src/backend/bir/bir_route3_memory.cpp:291-330 | the producing load and the first later store to its slot before the position |
| `Route3.FindLoadSource` | src/backend/bir/bir_route3_memory.cpp:364-411 | the same question answered from the index alone |
| `Route3.SourceFormsAgree` | src/backend/bir/bir_route3_memory.cpp:291-411 | with names defined once both forms agree on availability and on the invalidating store; on the load's position exactly when the producing load names its slot |
| `Route3.FreshExact` | src/backend/bir/bir_route3_memory.cpp:291-330 | a source is available exactly when the producer is a load that names its slot and nothing stores to that slot before the position; otherwise the first store that does is reported |
| `Route3.IndexFreshExact` | src/backend/bir/bir_route3_memory.cpp:364-411 | the same from the index, for the last load of the value |
| `Route3.PositionDisagreement` | src/backend/bir/bir_route3_memory.cpp:309-316 | a load without an address whose position only the direct form reports |
| `Route3.LoadIsFresh` | src/backend/bir/bir_route3_memory.cpp:291-330 | an available source means re-reading the slot at the position gives the loaded bytes, and the value is still the number they spell |
| `Route3.FindStoredValueSource` | src/backend/bir/bir_route3_memory.cpp:413-475 | the last store before the load that touches its bytes, reported when its range is the load's |
| `Route3.StoredSourceExact` | src/backend/bir/bir_route3_memory.cpp:413-475 | where the ends fit, a store is reported exactly when one before the last load wrote its range and no later one reaches into it, and it is that store |
| `Route3.ForwardingSound` | src/backend/bir/bir_route3_memory.cpp:92-131 | a reported store wrote the loaded bytes, and a load of up to eight bytes gives the low bytes of the stored word |
| `Route3.ForwardedRange` | src/backend/bir/bir_route3_memory.cpp:413-475 | at any width, a reported store is to the load's slot and range, and that range is the same at the load as just after the store |
| `Route4.BuildPublicationIndex` | src/backend/bir/bir_route4_publication.cpp:285-330 | exactly the publications of all blocks in order, and the named leading phis |
| `Route4.EntriesExact` | src/backend/bir/bir_route4_publication.cpp:314-326 | the block entries are exactly the named phis before which only phis stand |
| `Route4.EntryMatchExact` | src/backend/bir/bir_route4_publication.cpp:269-282 | a wrong relationship is exactly such a phi of the value in a block with the queried block's label |
| `Route4.FindCurrentBlockPublication` | src/backend/bir/bir_route4_publication.cpp:353-402 | the last record matching block, name and type before the position; without one, "no match" exactly when the name occurs at another type |
| `Route4.AnswerIsDirect` | src/backend/bir/bir_route4_publication.cpp:353-402 | for a block of the function, or a copy whose label only one block bears, that record names the producer the direct query on the block names |
| `Route4.ValidateReference` | src/backend/bir/bir_route4_publication.cpp:404-539 | valid exactly when one producer stands before the position, a duplicate exactly when two do, and the record is the direct one |
| `Route8.ReturnChainExact` | src/backend/bir/bir_route8.cpp:150-200 | a value is in a return chain exactly when the greedy run of scalar binaries from it ends at the returned name |
| `Route8.NextStepIsReturnChain` | src/backend/bir/bir_route8.cpp:163-187 | return chains are closed under taking the next step |
| `Route8.NextOperandExact` | src/backend/bir/bir_route8.cpp:163-187 | the next operand is empty exactly when the next instruction does not consume the result or has no other named operand, and else is that other operand, with its type and place |
| `Route8.ConflictsExact` | src/backend/bir/bir_route8.cpp:110-117 | two records conflict exactly when they return, or combine with, different names or types |
| `Route8.RunFrom` | src/backend/bir/bir_route8.cpp:163-187 | the inner loop ends with the name of the greedy run |
| `Route8.ReturnChainIndex.Publish` | src/backend/bir/bir_route8.cpp:119-138 | the first record under the key is kept, or made a duplicate when it conflicts; otherwise the record is appended |
| `Route8.ReturnChainIndex.constructor` | src/backend/bir/bir_route8.cpp:299-308 | all chains of all blocks are published in order |
| `Route8.ReturnChainIndex.Find` | src/backend/bir/bir_route8.cpp:318-347 | the loop computes the lookup that the next rows characterize |
| `Route8.LookupByCount` | src/backend/bir/bir_route8.cpp:318-347 | one matching record is returned, several give a duplicate status, none a missing one |
| `Route8.MissingStatusExact` | src/backend/bir/bir_route8.cpp:209-238 | which of the missing statuses is given: no value, no such instruction, no such block, or no match |
| `Route8.SummaryExact` | src/backend/bir/bir_route8.cpp:119-138 | records that agree with the first are kept as that first record; one that does not makes a duplicate for good |
| `Route8.LookupExact` | src/backend/bir/bir_route8.cpp:119-347 | for any key, named or not, and any labels, lookup in a fresh index is decided by the group of published records under the key |
| `Route8.DistinctLookup` | src/backend/bir/bir_route8.cpp:119-347 | with distinct labels a lookup is available exactly for return chains and returns that instruction's own record, with the returned value and the other operand of the next step |
| `LocalArrayGep.CoordinateOrder` | src/backend/bir/bir_local_array_semantic_gep.hpp:848-874 | the coordinate comparison is a total order |
| `LocalArrayGep.ScannedExact` | src/backend/bir/bir_local_array_semantic_gep.hpp:848-890 | a coordinate is scanned exactly when block, instruction, tie-break and label come after the guard's and before or at the endpoint's, in that order of weight |
| `LocalArrayGep.FindSingleDynamic` | src/backend/bir/bir_local_array_semantic_gep.hpp:1681-1702 | the first dynamic index, and whether there is another |
| `LocalArrayGep.ScanEffectSources` | src/backend/bir/bir_local_array_semantic_gep.hpp:1207-1226 | clean exactly when all sources have coordinates and those inside (proof, endpoint] preserve the index |
| `LocalArrayGep.ScanExact` | src/backend/bir/bir_local_array_semantic_gep.hpp:1207-1226 | the scan is clean exactly when all sources have coordinates and those in that range preserve the index; else it gives the complaint about the first that is not so |
| `LocalArrayGep.EndpointScanned` | src/backend/bir/bir_local_array_semantic_gep.hpp:878-890 | a call at the endpoint that clobbers the index is found |
| `LocalArrayGep.FindEffectStream` | src/backend/bir/bir.hpp:2882-2906 | the only matching stream, or that several match |
| `LocalArrayGep.StreamMatchesExact` | src/backend/bir/bir_local_array_semantic_gep.hpp:947-1004 | a stream belongs to a path and endpoint by address, or because names, places and edges are equal |
| `LocalArrayGep.CleanScanKeepsIndex` | src/backend/bir/bir_local_array_semantic_gep.hpp:1207-1226 | if the stream lists every change, a clean scan means the index reaches the endpoint unchanged, when the skipped sources preserve it or the run stays inside the interval |
| `LocalArrayGep.CleanScanExact` | src/backend/bir/bir_local_array_semantic_gep.hpp:1207-1226 | a clean scan proves the index unchanged over every listed run exactly when the sources outside (proof, endpoint] preserve it too |
| `LocalArrayGep.AvailableGuard` | src/backend/prealloc/publication_plans.cpp:6062-6112 | an available certificate has the index on the left, compared with its element count |
| `LocalArrayGep.CertificateExact` | src/backend/bir/bir_local_array_semantic_gep.hpp:2089-2208 | an available certificate proves 0 <= index < count for all words that take the edge exactly for unsigned guards on the true edge, or edges never taken |
| `LocalArrayGep.SignedCertificateExact` | src/backend/bir/bir_local_array_semantic_gep.hpp:2182-2191 | given a non-negative index, signed guards prove exactly on the true edge, or when the guard always holds |
| `LocalArrayGep.FalseEdgeCounterexample` | src/backend/prealloc/publication_plans.cpp:6062-6112 | a complete set of records with an available certificate whose selected edge is taken with the index out of bounds |
| `LocalArrayGep.SkippedSourceCounterexample` | src/backend/bir/bir_local_array_semantic_gep.hpp:1213-1216 | a complete set of records with a proving guard, in which a listed change outside the interval is skipped and the index ends out of bounds |
| `LocalArrayGep.IndexInBounds` | src/backend/bir/bir_local_array_semantic_gep.hpp:1038-2208 | with a guard that proves, or a signed one and a non-negative index, and a stream that lists all changes, the index is within the array at the endpoint, when the skipped sources preserve it or the run stays inside the interval |
| `LocalArrayGep.ChainExact` | src/backend/bir/bir_local_array_semantic_gep.hpp:1038-2208 | over all words that take the edge and all listed runs, the index ends within the array exactly when the guard proves and the skipped sources preserve it, or no word takes the edge |
| `LocalArrayGep.CertifiedExact` | src/backend/bir/bir_local_array_semantic_gep.hpp:1038-2208 | a certificate is available exactly when the edge stands, the guard compares the one index and bounds it by the element count, and the stream from guard to address clears it |
| `LocalArrayGep.RangeProofExact` | src/backend/bir/bir_local_array_semantic_gep.hpp:1735-1883 | when bounds prove an index in range, whoever gives them |
| `LocalArrayGep.CheckerReproducesCertificate` | src/backend/bir/bir_local_array_semantic_gep.hpp:2210-2425 | an available certificate on its own element path passes the proof fact stage and the checker returns it field for field |
| `LocalArrayGep.FactExact` | src/backend/bir/bir_local_array_semantic_gep.hpp:2210-2341 | which certificates, from whatever source, become proof facts |
| `LocalArrayGep.CheckerExact` | src/backend/bir/bir_local_array_semantic_gep.hpp:2343-2425 | which proof facts, from whatever source, satisfy the checker |
| `LocalArrayGep.GepAgreesWithProvenance` | src/backend/bir/bir_local_array_semantic_gep.hpp:2453-2672 | the GEP stage accepts exactly what the provenance stage accepted |
| `LocalArrayGep.ProvenanceExact` | src/backend/bir/bir_local_array_semantic_gep.hpp:2453-2573 | when an address has a provenance: all records name the same object, derivation and path, and the checker accepted |
| `LocalArrayGep.AvailableGepElement` | src/backend/bir/bir_local_array_semantic_gep.hpp:2575-2679 | for an available GEP the element at its offset lies in the object exactly when the size is known and the compared sum did not wrap |
| `LocalArrayGep.AddressedElementExact` | src/backend/bir/bir_local_array_semantic_gep.hpp:2564-2568 | with the index proved in bounds, the element addressed lies in the object in every listed run exactly when the whole array does, or no word takes the edge |
| `LocalArrayGep.SmallObjectCounterexample` | src/backend/bir/bir_local_array_semantic_gep.hpp:2564-2568 | a certified chain ending in an available GEP whose index names bytes past the object |
| `LocalArrayGep.WrappingSumCounterexample` | src/backend/bir/bir_local_array_semantic_gep.hpp:2564-2568 | a certified chain ending in an available GEP because the sum of offset and size wraps |
| `LocalArrayGep.CertificateReachesGep` | src/backend/bir/bir_local_array_semantic_gep.hpp:2089-2672 | a certificate on a well-formed path ends in an available GEP |
| `MemoryProvenance.MakeByteRange` | src/backend/bir/bir_memory_provenance.hpp:77-99 | the end is exact when given; overflow is flagged exactly when size or end leaves int64 |
| `MemoryProvenance.AccessProvenance.ProveDynamicArrayRange` | src/backend/bir/bir_memory_provenance.hpp:119-148 | the verdict over unbounded integers, computed with a quotient test and no overflow |
| `MemoryProvenance.AccessProvenance.ProveRequestedRange` | src/backend/bir/bir_memory_provenance.hpp:150-174 | both verdicts over unbounded integers |
| `MemoryProvenance.InBoundsExact` | src/backend/bir/bir_memory_provenance.hpp:150-174 | for complete objects of known size up to INT64_MAX, in bounds exactly when 0 <= offset and offset + size <= object size |
| `MemoryProvenance.UndecidedExact` | src/backend/bir/bir_memory_provenance.hpp:150-174 | nothing is proved exactly of objects that are partial or unknown or have no known size |
| `MemoryProvenance.HugeObjectCounterexample` | src/backend/bir/bir_memory_provenance.hpp:86-94 | beyond INT64_MAX an access inside its object is called out of bounds |
| `MemoryProvenance.ArrayVerdictExact` | src/backend/bir/bir_memory_provenance.hpp:119-148 | bounded exactly when the request lies in the array, undecided exactly when there is no array or a number is not representable |
| `Rv64Bits.WordOfSigned` | src/backend/mir/riscv/codegen/rv64_line_assembler.cpp:13-60 | reading a word as a signed number and casting it back loses nothing |
| `Rv64Bits.SignedWordOf` | src/apps/c4c-objdump.cpp:516-519 | every 32-bit signed number survives the cast to a word and back |
| `Rv64Isa.ShiftRoundTrip` | src/apps/c4c-objdump.cpp:521-713 | shift words print, parse and encode to themselves, the selector bits of the immediate included |
| `Rv64Isa.BranchRoundTrip` | src/apps/c4c-objdump.cpp:521-713 | the scrambled and sign-extended branch immediate is put back bit for bit |
| `Rv64Isa.JalRoundTrip` | src/apps/c4c-objdump.cpp:521-713 | the same for the jump immediate |
| `Rv64Isa.InsnDRoundTrip` | src/apps/c4c-objdump.cpp:472-488 | the 8-byte form prints, parses and encodes to itself |
| `Rv64Isa.WordRoundTrip` | src/apps/c4c-objdump.cpp:490-713 | every word the decoder accepts is printed as an instruction that parses and encodes to that word |
| `Rv64Listing.ListedWord` | src/apps/c4c-objdump.cpp:490-713 | `li a0, 0` is listed for 0x00000513 only, `ret` for 0x00008067 only, and any other accepted word under the mnemonic to which the tables give its opcode and function fields, with its registers and immediate |
| `Rv64Listing.AcceptedExact` | src/apps/c4c-objdump.cpp:490-713 | a word is accepted exactly when the tables have a mnemonic for its fields |
| `Rv64Listing.AssembledListed` | src/backend/mir/riscv/codegen/rv64_line_assembler.cpp:697-846 | listing the word of an accepted line gives the line back, `li` and `ret` apart |
| `Rv64Emitted.ParsedEmittable` | src/backend/mir/riscv/codegen/rv64_line_assembler.cpp:437-664 | the parser returns only lines built from the encoding tables |
| `Rv64Emitted.EmittedWordDecodes` | src/backend/mir/riscv/codegen/rv64_line_assembler.cpp:714-830 | every 4-byte line the assembler emits is one the decoder accepts, with the same distance if it transfers control |
| `Rv64Emitted.EmittedInsnDDecodes` | src/backend/mir/riscv/codegen/rv64_line_assembler.cpp:674-695 | every emitted 8-byte line is accepted as such |
| `Rv64Objdump.DecodeTextBytes` | src/apps/c4c-objdump.cpp:740-830 | the two passes compute the decoding that the next rows characterize |
| `Rv64Objdump.DecodeAtExact` | src/apps/c4c-objdump.cpp:740-812 | the 8-byte form first, then the 4-byte forms; a transfer out of the text, a target without label and unknown bytes are told apart |
| `Rv64Objdump.FirstFault` | src/apps/c4c-objdump.cpp:740-830 | a failed walk decodes up to its first fault and reports that |
| `Rv64Objdump.MisplacedExact` | src/apps/c4c-objdump.cpp:740-830 | a refused label is the first that stands inside an instruction |
| `Rv64Source.ListedText` | src/apps/c4c-objdump.cpp:490-830 | each line of a disassembly says what the bytes at its offset say, and names the target of a transfer by the function or the first label there |
| `Rv64Objdump.DecodeLossless` | src/apps/c4c-objdump.cpp:740-827 | decoded lines tile the text without gap or overlap and re-encode to exactly its bytes |
| `Rv64Objdump.WriteCanonicalAssembly` | src/apps/c4c-objdump.cpp:897-927 | the cursor over the labels prints header, labels and instructions in place |
| `Rv64Objdump.PrintedOnce` | src/apps/c4c-objdump.cpp:908-922 | every placed label is printed exactly once at its own offset |
| `Rv64As.ParseAssemblyFile` | src/apps/c4c-as.cpp:178-289 | the parse loop with its set of seen labels and its errors in order |
| `Rv64As.ParseExact` | src/apps/c4c-as.cpp:178-289 | accepts exactly the sources with `.text` first, legal lines and no label twice, and returns the offsets the instruction sizes give |
| `Rv64As.LabelsByName` | src/apps/c4c-as.cpp:296-300 | the label table holds the first offset of each name |
| `Rv64As.ResolveLocalControlFlowLabels` | src/apps/c4c-as.cpp:294-354 | every branch and jump is rewritten to its distance in place, or the first failure is returned |
| `Rv64As.AssembleTextBytes` | src/apps/c4c-as.cpp:357-378 | the bytes of all instructions in order, or failure |
| `Rv64As.AssembleFile` | src/apps/c4c-as.cpp:178-430 | the whole assembler up to the object |
| `Rv64RoundTrip.LabelsPrintedOnce` | src/apps/c4c-objdump.cpp:897-927 | the labels of a printed object fall on the function start and on their own offsets, each once |
| `Rv64RoundTrip.LineResolves` | src/apps/c4c-as.cpp:303-352 | label resolution gives each printed branch and jump its decoded distance, so it encodes to the bytes it came from |
| `Rv64RoundTrip.DisassembleReassemble` | src/apps/c4c-objdump.cpp:740-927 | on tokenized lines, c4c-as accepts the disassembly exactly when all names are legal symbols used once, and then rebuilds the same object |
| `Rv64RoundTrip.AssembleDisassemble` | src/apps/c4c-as.cpp:178-430 | c4c-objdump accepts every object c4c-as builds, in any label order sorted by offset, and reassembling its output gives that object again |
| `Rv64Source.SourceListed` | src/apps/c4c-as.cpp:178-430 | disassembling an assembled source lists its own instructions, one for one, with each transfer going to where its label stands |

## Left out

- Command lines, files, ELF headers and sections: the model starts from an extracted object and ends with the object handed to the ELF writer.
- Rv64RoundTrip.DisassembleReassemble: lines are tokens, so comment stripping, spacing and number spelling are not modelled; a name with a `#` in it is refused here, while the source cuts its line at the `#` first.
- Line numbers in c4c-as diagnostics: errors are kinds.
- Rv64Objdump.Decode: offsets are unbounded naturals, because a vector cannot reach 2^63 bytes.
- SequenceMaps.SequenceMap.Insert: a new key requires that fewer than 0x60000000 entries are there after the call; the insert that makes it that many doubles to 2^32 buckets, whose numbers `int32_t` no longer holds (`SequenceMaps.LimitIsExact`).
- ScopedNames.LocalNameTable.Run: has the same bound for each scope, counted as if every call bound a new key there.
- NameTables.StringIdTable.Intern: requires fewer than 2^32 - 1 ids, because the id type has 32 bits.
- Moved-from NameTables: the standard library leaves the contents of moved-from tables unspecified.
- The file table, which stores the empty string: no other part modelled here uses it.
- Arenas.Arena.Alloc: a failing `malloc` is not modelled, and block storage is taken to start 8-aligned.
- Arenas.Arena.Strdup: requires at most 2^32 - 8 bytes, because a larger copy would overrun its reservation.
- Route1.EvaluateSound: binaries on 1-bit, 128-bit, pointer or floating operands, and ill-typed ones, have no result in the semantics.
- Route3.ForwardingSound: takes as hypotheses that no call or pointer store writes the slot, that slot ids and names agree and that sizes are known, because the code relies on them.
- Route3.LoadIsFresh: the source copies `is_volatile` into its records and no search reads it; here every slot is ordinary memory that only the block's own instructions write.
- Route8.IdentityOf: the address of a value is its place in its block; the pointer symbol id, which no comparison reads, is left out.
- LocalArrayGep.IndexInBounds: takes as hypothesis that the stream lists every change of the index; building the stream and the endpoint bridge is not part of this model.
- LocalArrayGep.EvaluateCertificate: when a stage accepts is characterized; which of several refusals it reports is computed in source order, with a law only for the effect scan.
- Rv64As.Parse: likewise, which of several failures of one line is reported.
- The control-flow matrices behind `dominates` and `covers`: they are inputs.
- Routes 5, 6 and 7 and the global static GEP: they repeat the find-or-validate pattern.
- LIR lowering, register allocation and code generation.
