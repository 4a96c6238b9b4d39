# SPIR-V introspection data model and pipeline layout container

A Dafny model of the shader-reflection data structures of the Nabla engine
(`CSPIRVIntrospector.h`) and of the small `IPipelineLayout` container, with
proofs about them.

- **Relocatable handles** (`based_offset`, `based_span`, module
  `BasedHandles`). A handle is a byte offset into a pool, or an offset plus
  an element count. It is resolved against whatever base address is current.
  `size_t` is a 64-bit unsigned integer and its wrap-around is written out.
  The value `~0` is the invalid sentinel.
- **Extent and type records** (`SArrayInfo`, `STypeInfo` and the byte layout
  of `SType<true>`, module `TypeLayout`). An extent is its 32-bit word: the
  low 31 bits are `specID` and the top bit is `isSpecConstant`. A type node
  is 48 bytes and owns a `StoragePerMember * memberCount` storage block. That
  block holds five back-to-back tables: types, names, sizes, offsets and
  strides. The finalized `SType<false>` is a value tree.
- **The append-only arena** of `CStageIntrospectionData` (module
  `StageIntrospection`). The class `StageIntrospectionData` holds `memPool` as
  a byte sequence. Its methods are `allocOffset`, `alloc`, `addCounts`,
  `addString` and `addType`, each proved against the exact bytes it leaves.
  The iterative pre-order DFS over a memory block's type graph is a method
  with an explicit stack. Its result is proved equal to a recursive pre-order
  specification.
- **The stage result's queryable content** (module `StageInterface`). This
  covers inputs and outputs with their ordering, push-constant info,
  descriptor records, the storage-buffer runtime size, the output getters,
  and content equality of `SParams`.
- **The introspection cache** (module `IntrospectionCache`). `introspect`
  looks up an unordered set through the transparent `KeyHasher` and
  `KeyEquals`. `doIntrospection` is a deterministic builder passed in as a
  function.
- **The pipeline aggregate's state** (`CPipelineIntrospectionData`, module
  `PipelineIntrospection`). Its constructor fills both arrays. Its per-set
  binding collections are hashed and compared by binding number only.
- **`IPipelineLayout`** (module `PipelineLayout`). It has four layout slots
  and an owned copy of the push-constant ranges, or no array at all when
  there are none.

Modelling choices:

- Pool bytes are `Byte` (0..255) and multi-byte fields are little-endian.
  Field sizes follow a 64-bit target: a handle is 8 bytes and a span is 16.
- Hash values are uninterpreted functions (`Hasher`). Only the fact that
  equal inputs give equal outputs is used.
- Layout objects are a type parameter `L` and null is `None`. Object identity
  stands in for reference counting.

## Model

| member | source | states |
|---|---|---|
| BasedHandles.IsValid | include/nbl/asset/utils/CSPIRVIntrospector.h:50 | `explicit operator bool`: true exactly when the byte offset is not the `~0` sentinel |
| BasedHandles.Resolve | include/nbl/asset/utils/CSPIRVIntrospector.h:50-57 | resolving yields null exactly when the offset is the `~0` sentinel |
| BasedHandles.DefaultOffset | include/nbl/asset/utils/CSPIRVIntrospector.h:45-65 | a default-constructed offset holds the `~0` sentinel |
| BasedHandles.DefaultOffsetIsNull | include/nbl/asset/utils/CSPIRVIntrospector.h:45-65 | a default-constructed offset is invalid, `operator bool` is false, and it resolves to null against any base |
| BasedHandles.FromPointers | include/nbl/asset/utils/CSPIRVIntrospector.h:47 | `based_offset(basePtr, ptr)`: the pointer difference in `size_t`; ResolveFromPointers and FromPointersOfResolve state its round trips with Resolve |
| BasedHandles.Advance | include/nbl/asset/utils/CSPIRVIntrospector.h:59 | `operator+(n)`: `sizeof(T)*n` added to the byte offset modulo 2^64; AdvanceCompose, AdvanceInRange and AdvanceOfInvalid state its properties |
| BasedHandles.ResolveFromPointers | include/nbl/asset/utils/CSPIRVIntrospector.h:47-57 | an offset built from `(base, ptr)` is valid unless `ptr` is the sentinel's address, and then it resolves back to `ptr` |
| BasedHandles.FromPointersOfResolve | include/nbl/asset/utils/CSPIRVIntrospector.h:47-57 | rebuilding an offset from its resolved address gives the same offset |
| BasedHandles.AdvanceCompose | include/nbl/asset/utils/CSPIRVIntrospector.h:59 | advancing by `a` and then by `b` elements equals advancing by `a + b`, modulo 2^64 |
| BasedHandles.AdvanceInRange | include/nbl/asset/utils/CSPIRVIntrospector.h:59 | `operator+(n)` moves the byte offset by `sizeof(T)*n`; without wrap-around the result is valid and resolves `sizeof(T)*n` bytes further on |
| BasedHandles.AdvanceOfInvalid | include/nbl/asset/utils/CSPIRVIntrospector.h:59-65 | advancing the invalid sentinel by a non-zero byte count wraps it to a valid offset |
| BasedHandles.Empty | include/nbl/asset/utils/CSPIRVIntrospector.h:84 | `empty()`: true exactly when the element count is 0 |
| BasedHandles.ResolveSpan | include/nbl/asset/utils/CSPIRVIntrospector.h:84-92 | a resolved span keeps its size and its data is null exactly when the span is empty |
| BasedHandles.DefaultSpan | include/nbl/asset/utils/CSPIRVIntrospector.h:76-98 | a default span holds offset `~0` and size 0 |
| BasedHandles.DefaultSpanIsEmpty | include/nbl/asset/utils/CSPIRVIntrospector.h:76-98 | a default span is empty and resolves to `(null, 0)` |
| BasedHandles.SpanFromPointers | include/nbl/asset/utils/CSPIRVIntrospector.h:81 | `based_span(basePtr, span)`: the data pointer difference and the size; ResolveSpanFromPointers states the round trip |
| BasedHandles.ResolveSpanFromPointers | include/nbl/asset/utils/CSPIRVIntrospector.h:81-92 | a span built from `(base, span)` resolves back to that data and size when non-empty, and to `(null, 0)` when empty |
| TypeLayout.DefaultArrayInfo | include/nbl/asset/utils/CSPIRVIntrospector.h:120 | a default extent is the word 0 |
| TypeLayout.SpecId | include/nbl/asset/utils/CSPIRVIntrospector.h:123 | the 31-bit `specID` field: the word's low 31 bits |
| TypeLayout.IsSpecConstant | include/nbl/asset/utils/CSPIRVIntrospector.h:124 | the 1-bit `isSpecConstant` field: the word's top bit is set |
| TypeLayout.IsRuntimeSized | include/nbl/asset/utils/CSPIRVIntrospector.h:129 | `SArrayInfo::isRuntimeSized()`: not a spec constant and the whole word is 0, i.e. a literal extent of 0; CountEntry, DefaultArrayInfoIsRuntimeSized and RecordedExtents state when it holds |
| TypeLayout.CountEntry | include/nbl/asset/utils/CSPIRVIntrospector.h:116-130 | a literal extent keeps its value; a spec-constant extent keeps the id's low 31 bits with the flag set; it is runtime-sized exactly for a literal 0 |
| TypeLayout.WithSpecId | include/nbl/asset/utils/CSPIRVIntrospector.h:121-122 | writing `specID` stores the id's low 31 bits and leaves `isSpecConstant` as it was |
| TypeLayout.WithSpecConstantFlag | include/nbl/asset/utils/CSPIRVIntrospector.h:123 | setting `isSpecConstant` leaves `specID` as it was |
| TypeLayout.SpecEntryFromZero | include/nbl/asset/utils/CSPIRVIntrospector.h:116-130 | the two bit-field writes on a zero word give exactly the spec-constant extent |
| TypeLayout.DefaultArrayInfoIsRuntimeSized | include/nbl/asset/utils/CSPIRVIntrospector.h:119-129 | a default extent (`value = 0`) is not a spec constant and is runtime-sized |
| TypeLayout.DefaultTypeInfo | include/nbl/asset/utils/CSPIRVIntrospector.h:189-197 | the default member initialisers of `STypeInfo`: no extra rows or columns, row-major, stride 0, unknown-or-struct type |
| TypeLayout.IsScalar | include/nbl/asset/utils/CSPIRVIntrospector.h:185 | `isScalar()`: `lastRow == 0 && lastCol == 0` |
| TypeLayout.IsVector | include/nbl/asset/utils/CSPIRVIntrospector.h:186 | `isVector()`: `lastRow > 0 && lastCol == 0` |
| TypeLayout.IsMatrix | include/nbl/asset/utils/CSPIRVIntrospector.h:187 | `isMatrix()`: `lastRow > 0 && stride > 0`; ShapeTests states how the three tests relate |
| TypeLayout.ShapeTests | include/nbl/asset/utils/CSPIRVIntrospector.h:183-198 | a scalar is neither vector nor matrix; stride 0 means not a matrix; a vector that is also a matrix has rows, no columns and a stride; the default shape is scalar |
| TypeLayout.MemberTypes | include/nbl/asset/utils/CSPIRVIntrospector.h:215 | the types table starts at `memberInfoStorage` |
| TypeLayout.MemberNames | include/nbl/asset/utils/CSPIRVIntrospector.h:217-223 | the names table follows `memberCount` type handles |
| TypeLayout.MemberSizes | include/nbl/asset/utils/CSPIRVIntrospector.h:229-236 | the sizes table follows `memberCount` name spans |
| TypeLayout.MemberOffsets | include/nbl/asset/utils/CSPIRVIntrospector.h:237-238 | the offsets table follows `memberCount` sizes |
| TypeLayout.MemberStrides | include/nbl/asset/utils/CSPIRVIntrospector.h:240-241 | the strides table follows `memberCount` offsets; MemberTablesTile states how the five tables fill the block |
| TypeLayout.MemberTablesTile | include/nbl/asset/utils/CSPIRVIntrospector.h:214-243 | the types, names, sizes, offsets and strides tables lie back to back in that order and cover the `StoragePerMember*memberCount` block exactly |
| TypeLayout.MemberTablesDisjoint | include/nbl/asset/utils/CSPIRVIntrospector.h:214-243 | the five tables are pairwise disjoint and each lies inside the storage block |
| TypeLayout.TilesDisjoint | include/nbl/asset/utils/CSPIRVIntrospector.h:214-243 | ranges that tile a block lie inside it, in order, without overlap |
| TypeLayout.FreshTypeNodeReads | include/nbl/asset/utils/CSPIRVIntrospector.h:246-252 | a node as `addType` writes it, wherever it sits in the pool, reads back with its member count, its storage offset, and empty `typeName` and `count` spans |
| TypeLayout.TypeIsArray | include/nbl/asset/utils/CSPIRVIntrospector.h:210 | `SType::isArray()`: at least one extent is recorded in `count` |
| StageInterface.InterfaceLess | include/nbl/asset/utils/CSPIRVIntrospector.h:169-172 | `SInterface::operator<`: the left location is smaller; InterfaceLessIsStrictWeakOrder states that it is a strict weak order |
| StageInterface.InterfaceLessIsStrictWeakOrder | include/nbl/asset/utils/CSPIRVIntrospector.h:169-172 | `SInterface::operator<` is irreflexive and transitive, and its incomparable pairs are exactly those with equal locations |
| StageInterface.DefaultPushConstants | include/nbl/asset/utils/CSPIRVIntrospector.h:549 | `m_pushConstants = {}`: not present, and covers no push-constant byte |
| StageInterface.Present | include/nbl/asset/utils/CSPIRVIntrospector.h:317-318 | `present()`: a block type was recorded, even for an empty block |
| StageInterface.RecordedSizeAsWritten | include/nbl/asset/utils/CSPIRVIntrospector.h:315 | the `uint8_t` size field stores a size below 256 unchanged |
| StageInterface.FullBlockRecordedEmptyAsWritten | include/nbl/asset/utils/CSPIRVIntrospector.h:314-315 | a full 256-byte block is stored with size 0 and so covers no byte, although byte 0 belongs to it |
| StageInterface.PushConstantSizeEncodings | include/nbl/asset/utils/CSPIRVIntrospector.h:314-315 | for a block inside the 256 push-constant bytes, the `uint8_t` field keeps the size, and covers the declared bytes, exactly when the size is below 256; every byte such a block declares is a push-constant byte |
| StageInterface.DescriptorIsArray | include/nbl/asset/utils/CSPIRVIntrospector.h:384 | `SDescriptorVarInfo::isArray()`: at least one extent is recorded in `count` |
| StageInterface.DescriptorRunTimeSized | include/nbl/asset/utils/CSPIRVIntrospector.h:384-385 | `isRunTimeSized()` implies `isArray()`, and holds exactly when the first extent is runtime-sized |
| StageInterface.DescriptorIsRunTimeSized | include/nbl/asset/utils/CSPIRVIntrospector.h:385 | `isRunTimeSized()`: an array whose first extent word is 0; DescriptorRunTimeSized states its relation to `isArray` and the extent |
| StageInterface.IsLastMemberRuntimeSized | include/nbl/asset/utils/CSPIRVIntrospector.h:356-362 | `isLastMemberRuntimeSized()`: the last member's first extent is runtime-sized, false without members; EmptyBlockIsNotRuntimeSized and RuntimeSizeGrowth state its consequences |
| StageInterface.GetRuntimeSize | include/nbl/asset/utils/CSPIRVIntrospector.h:363-373 | `getRuntimeSize(n)` in `size_t`; RuntimeSizeGrowth states how it grows with `n` |
| StageInterface.EmptyBlockIsNotRuntimeSized | include/nbl/asset/utils/CSPIRVIntrospector.h:356-373 | a storage block with no members is never runtime-sized, and its size is `sizeWithoutLastMember` whatever the element count |
| StageInterface.RuntimeSizeGrowth | include/nbl/asset/utils/CSPIRVIntrospector.h:356-373 | the runtime size is `sizeWithoutLastMember` for 0 elements and grows by the last member's stride per element when the last member is runtime-sized; otherwise it ignores the count; that extent is never a spec constant |
| StageInterface.ParamsEqualByContent | include/nbl/asset/utils/CSPIRVIntrospector.h:413-426 | `SParams` are equal exactly when entry point, stage, content type, size and bytes agree; this is reflexive, symmetric and transitive when both shaders are present |
| StageInterface.ParamsEqual | include/nbl/asset/utils/CSPIRVIntrospector.h:413-426 | `SParams::operator==`: checks entry point, right shader, stage, content type, size and bytes in that order; ParamsEqualByContent states what it compares and that it is an equivalence |
| StageInterface.GetDescriptorSetInfo | include/nbl/asset/utils/CSPIRVIntrospector.h:431 | `getDescriptorSetInfo(set)`: the bindings of set `set`, which must be one of the four |
| StageInterface.GetFragmentShaderOutputs | include/nbl/asset/utils/CSPIRVIntrospector.h:433-442 | throws `bad_variant_access` exactly when a fragment stage holds generic outputs; any non-empty answer is the fragment stage's fragment outputs |
| StageInterface.GetShaderOutputs | include/nbl/asset/utils/CSPIRVIntrospector.h:443-452 | throws `bad_variant_access` exactly when a stage that is neither unknown nor fragment holds fragment outputs; any non-empty answer is that stage's generic outputs |
| StageInterface.OutputGettersExclusive | include/nbl/asset/utils/CSPIRVIntrospector.h:433-452 | when the output variant matches the stage, neither getter throws; a fragment stage gets its fragment outputs and no generic ones; another known stage gets generic outputs only; an unknown stage gets neither |
| StageInterface.OutputGettersThrowOnMismatch | include/nbl/asset/utils/CSPIRVIntrospector.h:433-452 | neither getter throws exactly when the output variant matches the stage or the stage is unknown |
| StageIntrospection.StageIntrospectionData.AllocOffset | include/nbl/asset/utils/CSPIRVIntrospector.h:477-482 | returns the previous pool length; the pool grows by exactly `bytes` zero bytes and keeps every earlier byte |
| StageIntrospection.StageIntrospectionData.Alloc | include/nbl/asset/utils/CSPIRVIntrospector.h:483-488 | returns the span `(old length, count)`; the pool grows by `sizeof(T)*count` zero bytes |
| StageIntrospection.StageIntrospectionData.AddCounts | include/nbl/asset/utils/CSPIRVIntrospector.h:489-509 | `count == 0` returns the empty span with the pool unchanged; otherwise the span at the old length, and the pool gains exactly the `count` encoded extents |
| StageIntrospection.StageIntrospectionData.CountRecord | include/nbl/asset/utils/CSPIRVIntrospector.h:499-505 | one loop step on a zero word leaves the literal in `value`, or the id in `specID` with the flag set |
| StageIntrospection.EncodeCountsReads | include/nbl/asset/utils/CSPIRVIntrospector.h:494-506 | entry `i` of the recorded extents reads back as `CountEntry(sizes[i], literal[i])` |
| StageIntrospection.RecordedExtents | include/nbl/asset/utils/CSPIRVIntrospector.h:116-130 | a recorded literal below 2^31 is not a spec constant and keeps its value; a spec-constant entry has the flag and the id's low 31 bits and is never runtime-sized; an entry is runtime-sized exactly for a literal 0 |
| StageIntrospection.StageIntrospectionData.AddString | include/nbl/asset/utils/CSPIRVIntrospector.h:510-517 | allocates `|s|+1` bytes at the old length holding `s` and then a NUL |
| StageIntrospection.StageIntrospectionData.AddType | include/nbl/asset/utils/CSPIRVIntrospector.h:519-528 | the zeroed member block comes first and the node right after it; the node reads back with `memberCount = n` and `memberInfoStorage` at the block |
| StageIntrospection.AddedTypeLayout | include/nbl/asset/utils/CSPIRVIntrospector.h:519-528 | in the pool `addType` leaves, the node follows its zeroed block and reads back with the requested count and the block's offset |
| StageIntrospection.AddedTypeTables | include/nbl/asset/utils/CSPIRVIntrospector.h:519-528 | the five member tables of the new node tile its member block exactly, ending where the node begins |
| StageIntrospection.DecodedNode | include/nbl/asset/utils/CSPIRVIntrospector.h:280-286 | the graph decoded from the pool gives each node the member handles its `memberTypes()` table holds |
| StageIntrospection.PreOrderVisitsOncePerPath | include/nbl/asset/utils/CSPIRVIntrospector.h:261-290 | each node appears in the pre-order walk once per root-to-node path, so shared nodes repeat |
| StageIntrospection.MembersVisitOncePerPath | include/nbl/asset/utils/CSPIRVIntrospector.h:285-286 | the walks of a node's members, taken together, count each target once per path through those members |
| StageIntrospection.MembersEndWithFirst | include/nbl/asset/utils/CSPIRVIntrospector.h:285-286 | members are walked last to first, so the walk of member 0 is the tail of the sequence |
| StageIntrospection.PreOrderShape | include/nbl/asset/utils/CSPIRVIntrospector.h:269-289 | a walk starts with its root; the next node is the last member; it ends with the walk of the first member |
| StageIntrospection.SharedEarlierMemberWalkedTwice | include/nbl/asset/utils/CSPIRVIntrospector.h:261-290 | a member allocated before its parent and listed twice by it is walkable and visited twice |
| StageIntrospection.StackPop | include/nbl/asset/utils/CSPIRVIntrospector.h:271-278 | popping the top of a stack of walkable nodes leaves walkable nodes, and the pending order is the top's walk followed by the rest |
| StageIntrospection.StackPush | include/nbl/asset/utils/CSPIRVIntrospector.h:285-286 | pushing member `i` on top of the pending members keeps the stack walkable and extends the pending order by that member's walk |
| StageIntrospection.StageIntrospectionData.PushMembers | include/nbl/asset/utils/CSPIRVIntrospector.h:280-286 | after pushing members `0..n-1` the pending order is the members' walks last to first, followed by what was already pending |
| StageIntrospection.StageIntrospectionData.VisitMemoryBlockPreOrderDFS | include/nbl/asset/utils/CSPIRVIntrospector.h:261-290 | for any type graph whose nodes below the root can be ranked so that members rank below their parents (every acyclic graph), the nodes passed to `pre` are exactly the recursive pre-order walk of the block; a null root visits nothing |
| IntrospectionCache.HeterogeneousKeysAgree | include/nbl/asset/utils/CSPIRVIntrospector.h:688-725 | keys that compare equal hash equal, whether parameters or stored entries, and the mixed comparisons mirror each other |
| IntrospectionCache.KeyHash | include/nbl/asset/utils/CSPIRVIntrospector.h:692-704 | `KeyHasher` on `SParams`: the code bytes hashed, combined with the entry point and then the stage; HeterogeneousKeysAgree states its agreement with `KeyEquals` |
| IntrospectionCache.KeyHashOfPointer | include/nbl/asset/utils/CSPIRVIntrospector.h:705-707 | `KeyHasher` on a stored pointer hashes its parameters, and fails on a null pointer |
| IntrospectionCache.ParamsEqualsData | include/nbl/asset/utils/CSPIRVIntrospector.h:712-715 | `KeyEquals(params, data)` compares the params with the stored parameters |
| IntrospectionCache.DataEqualsParams | include/nbl/asset/utils/CSPIRVIntrospector.h:716-719 | `KeyEquals(data, params)`, the mirror overload |
| IntrospectionCache.DataEqualsData | include/nbl/asset/utils/CSPIRVIntrospector.h:720-723 | `KeyEquals(data, data)` forwards to the mixed overload |
| IntrospectionCache.FindIn | include/nbl/asset/utils/CSPIRVIntrospector.h:618-620 | a lookup finds an entry equal to the key and no earlier one; it finds nothing exactly when no entry is equal |
| IntrospectionCache.FindAfterInsert | include/nbl/asset/utils/CSPIRVIntrospector.h:624-627 | after a miss, appending an equal entry makes the lookup find it |
| IntrospectionCache.FindKeptByInsert | include/nbl/asset/utils/CSPIRVIntrospector.h:624-627 | appending an entry leaves every lookup that already succeeded unchanged |
| IntrospectionCache.FailedBuildInsertDereferencesNullAsWritten | include/nbl/asset/utils/CSPIRVIntrospector.h:622-627 | the written insertion fails exactly for a failed build with `insertToCache`, in the hashing of the null pointer inside `insert` (line 706); otherwise it appends a successful build, and nothing without `insertToCache` |
| IntrospectionCache.Introspector.Introspect | include/nbl/asset/utils/CSPIRVIntrospector.h:611-630 | returns null with the cache untouched for a missing shader or non-SPIR-V content; on a hit returns the stored object, even with `insertToCache=false`; on a miss returns a fresh build, appended only with `insertToCache` and only when the build succeeds; the cache stays one entry per key |
| IntrospectionCache.SecondLookupHits | include/nbl/asset/utils/CSPIRVIntrospector.h:611-630 | after a success has been inserted, any equal key finds that same entry |
| PipelineIntrospection.DefaultDescriptorInfo | include/nbl/asset/utils/CSPIRVIntrospector.h:561-570 | a default record has the inherited binding `~0u` and type `ET_COUNT`, no stage, and is neither an array nor runtime-sized |
| PipelineIntrospection.IsArray | include/nbl/asset/utils/CSPIRVIntrospector.h:563 | `isArray()`: a non-zero stride; DescriptorShape states the shapes |
| PipelineIntrospection.IsRuntimeSized | include/nbl/asset/utils/CSPIRVIntrospector.h:564 | `isRuntimeSized()`: an array whose count is 0 |
| PipelineIntrospection.DescriptorShape | include/nbl/asset/utils/CSPIRVIntrospector.h:561-570 | `isArray` holds iff `stride != 0`; `isRuntimeSized` holds iff it is an array with `count == 0`, and implies `isArray` |
| PipelineIntrospection.DescriptorLess | include/nbl/asset/utils/CSPIRVIntrospector.h:133-136 | `SDescriptorInfo::operator<`: the left binding is smaller; DescriptorLessIsStrictWeakOrder states that it is a strict weak order |
| PipelineIntrospection.DescriptorLessIsStrictWeakOrder | include/nbl/asset/utils/CSPIRVIntrospector.h:133-136 | `SDescriptorInfo::operator<` is irreflexive and transitive, and its incomparable pairs are exactly those with equal bindings |
| PipelineIntrospection.BindingHash | include/nbl/asset/utils/CSPIRVIntrospector.h:590-593 | `Hash`: the binding number |
| PipelineIntrospection.BindingKeyEqual | include/nbl/asset/utils/CSPIRVIntrospector.h:594-600 | `KeyEqual`: equal binding numbers |
| PipelineIntrospection.BindingKeysAgree | include/nbl/asset/utils/CSPIRVIntrospector.h:590-600 | `KeyEqual` is an equivalence, and records it calls equal get the same `Hash` |
| PipelineIntrospection.FindBinding | include/nbl/asset/utils/CSPIRVIntrospector.h:590-602 | a lookup by binding returns an entry with that binding, and returns nothing exactly when no entry has it |
| PipelineIntrospection.FindBindingUnique | include/nbl/asset/utils/CSPIRVIntrospector.h:590-602 | in a collection with one entry per binding, the lookup returns that entry |
| PipelineIntrospection.InsertBinding | include/nbl/asset/utils/CSPIRVIntrospector.h:590-602 | `unordered_set::insert` under the binding-only `Hash`/`KeyEqual`: the collection only grows, by at most one entry; it is unchanged exactly when some entry already has the binding; afterwards some entry has it; InsertBindingKeepsOnePerBinding states what lookups then answer |
| PipelineIntrospection.InsertBindingKeepsOnePerBinding | include/nbl/asset/utils/CSPIRVIntrospector.h:590-602 | insertion keeps one entry per binding; an existing entry wins over the new one; other bindings are unaffected |
| PipelineIntrospection.PipelineIntrospectionData.constructor | include/nbl/asset/utils/CSPIRVIntrospector.h:572-576 | all 256 push-constant byte masks are `ESS_UNKNOWN`, every highest binding number is -1, and every set is empty |
| PipelineIntrospection.PipelineIntrospectionData.AddBinding | include/nbl/asset/utils/CSPIRVIntrospector.h:590-602 | inserting into a set succeeds exactly when its binding is new, changes only that set, and keeps one entry per binding in every set |
| PipelineIntrospection.PipelineIntrospectionData.Binding | include/nbl/asset/utils/CSPIRVIntrospector.h:590-602 | the entry of a set with a given binding, or nothing exactly when that set has no such binding |
| PipelineLayout.DefaultConstructionDereferencesNullAsWritten | include/irr/asset/IPipelineLayout.h:29-36 | the written copy fails exactly for an empty range list, the default-constructed layout included, and copies every other list whole |
| PipelineLayout.PipelineLayout.constructor | include/irr/asset/IPipelineLayout.h:29-37 | the four slots hold the four layouts in order, null where omitted; the ranges are copied in order into a fresh array of exactly their number, and no array is stored when the list is empty |
| PipelineLayout.PipelineLayout.GetDescriptorSetLayout | include/irr/asset/IPipelineLayout.h:39 | `getDescriptorSetLayout(set)`: the layout in slot `set`, for one of the four slots; ConstructAndQuery states what it returns after construction |
| PipelineLayout.PipelineLayout.GetPushConstantRanges | include/irr/asset/IPipelineLayout.h:40 | the stored range array is either null or non-empty |
| PipelineLayout.ConstructAndQuery | include/irr/asset/IPipelineLayout.h:29-43 | on a fresh layout built from four layouts, the getters return the i-th layout passed in slot i, null ranges for an empty list, and otherwise exactly the given ranges in order |

## Left out

- `doIntrospection`, `addResource`, `shaderMemBlockIntrospection`, `calcBytesizeForType` and `finalize` depend on the spirv_cross decoder, and CSPIRVIntrospector.cpp is not part of this model. The builder is a function parameter of `Introspector`. The arena contents it produces are not modelled beyond what the arena methods write. The model assumes that every built introspection carries, as `m_params`, the parameters it was built from, which `doIntrospection` sets; `Introspector.Valid()` and `SecondLookupHits` depend on it.
- `printExtents` and `printType` are debug printers and are not modelled.
- `merge(stageData, specConstants)` is declared with only a doc comment, and its body is not part of this model. `AddBinding` models the set insertion that merging performs, but not the compatibility checks, the push-constant byte union or `m_highestBindingNumbers` updates.
- `createPushConstantRangesFromIntrospection`, the approximate layout synthesis and `createApproximateComputePipelineFromIntrospection` build engine objects that are not part of this model.
- Reference counting is not modelled. Shared results are object identity, and the refcounted dynamic array of `IPipelineLayout` is a plain `array`.
- Float members of the `SSpecConstant` default-value union are kept as an opaque 64-bit pattern.
- Bit-field placement is implementation-defined. `SArrayInfo` assumes `specID` in the low 31 bits; `STypeInfo` and the descriptor bit-fields are range-bounded fields.
- Field sizes and offsets assume a 64-bit target with 8-byte handles and no padding beyond what the 48-byte `SType<true>` layout implies. Other targets are not covered.
- `std::vector::resize` throwing `length_error` or `bad_alloc` is left out. The arena methods instead require the final pool length to stay below 2^63.
- The `Mutable = false` instantiation of `visitMemoryBlockPreOrderDFS` walks finalized pointers rather than the pool, and is not modelled separately. The `pre` callback is modelled as the sequence of visited nodes, and every node is resolved against the one pool base taken before the walk, so a `pre` that allocates in the pool (and may move it) is outside the model.
- StageIntrospection.StageIntrospectionData.VisitMemoryBlockPreOrderDFS: takes a ghost ranking of the nodes, in which every member ranks below its parent, as the witness that the graph below the root is acyclic. `addType` leaves every member handle at offset 0; the builder that later fills the handles is not part of this model, and it is what must produce an acyclic graph. A cyclic graph, which the source walks forever, is outside the model.
- BasedHandles.Resolve: the model's `Null` is a separate tag, so a valid offset 0 resolved against a null base (an empty pool's `data()`) gives `Addr(0)`, where the source gets `nullptr`; resolving is null exactly for the `~0` sentinel only in the model.
- Concrete hash values of `std::hash` and `hash_combine` are uninterpreted functions.
- Numeric values of `E_SHADER_STAGE`, `E_CONTENT_TYPE` and `IDescriptor::E_TYPE` are not modelled, because IShader.h and IDescriptor.h are not part of this model. The enumerations are plain datatypes.
- The getters that return `{}` through a const reference (a dangling reference in the source) are modelled by intent, as an empty sequence.
- StageInterface.RuntimeSizeGrowth: models `isLastMemberRuntimeSized` and `getRuntimeSize` by intent. The written code applies `.count` to a pointer and names a field `isSpecConstantID` that does not exist. The precondition that the last member is an array is made explicit.
- IntrospectionCache.Introspector.Introspect: a null build result is not inserted (see Findings).
- The sortedness of `m_specConstants` by `id`, of `m_input` by `location` and of each set's bindings by `binding` is produced by `finalize`, which is not modelled; `StageData` does not carry it. InterfaceLessIsStrictWeakOrder and DescriptorLessIsStrictWeakOrder only show that the comparisons are fit for such a sort.
- The engine's ImGui backend and the image-flattening hash filter are outside the introspector and are not modelled.

## Findings

| source | as written | input that shows it | evidently intended | confidence | as-written member | corrected member |
|---|---|---|---|---|---|---|
| include/nbl/asset/utils/CSPIRVIntrospector.h:314-315 | `SPushConstantInfo::size` is a `uint8_t` while `MaxPushConstantsSize` is 256 | a push-constant block of all 256 bytes is stored with size 0 | a size field wide enough for 0..256 | medium, not executed | StageInterface.FullBlockRecordedEmptyAsWritten | StageInterface.PushConstantSizeEncodings |
| include/nbl/asset/utils/CSPIRVIntrospector.h:622-627 | after a miss with `insertToCache`, the result of `doIntrospection` is inserted even when it is null | a SPIR-V shader that the builder rejects, introspected with `insertToCache = true`: the insertion itself hashes the null result through `data->getParams()` (line 706) and dereferences null | insert only a successful build | high, not executed | IntrospectionCache.FailedBuildInsertDereferencesNullAsWritten | IntrospectionCache.Introspector.Introspect |
| include/irr/asset/IPipelineLayout.h:34-36 | `std::copy` writes to `m_pushConstantRanges->begin()` after that member was set to null for an empty range list | the default constructor (`begin == end == nullptr`) | skip the copy when there are no ranges | high, not executed | PipelineLayout.DefaultConstructionDereferencesNullAsWritten | PipelineLayout.PipelineLayout.constructor |
