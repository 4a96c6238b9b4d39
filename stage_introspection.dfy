/**
  `CStageIntrospectionData` as an object: the append-only byte arena
  (`m_memPool`) with the allocation methods used while a stage is being
  introspected, and the iterative pre-order traversal of a memory block's
  type graph stored in that arena.
 */
module StageIntrospection {
  import opened Wrappers
  import opened Bytes
  import opened BasedHandles
  import opened TypeLayout
  import opened StageInterface

  /** `std::vector<char>::max_size()`: `PTRDIFF_MAX` bytes. */
  const MaxPoolSize: nat := 0x7FFF_FFFF_FFFF_FFFF

  const U32Modulus: nat := 0x1_0000_0000

  /** `SMemoryBlock<true>`: a handle to the block's root type node. */
  datatype MemoryBlock = MemoryBlock(blockType: BasedOffset)

  // ---------------------------------------------------------------- arena contents

  /** The extent records `addCounts` writes, one 4-byte word per dimension. */
  function EncodeCounts(sizes: seq<U32>, literal: seq<bool>): (b: seq<Byte>)
    requires |sizes| == |literal|
    ensures |b| == SizeOfArrayInfo * |sizes|
  {
    if sizes == [] then []
    else EncodeCounts(sizes[..|sizes| - 1], literal[..|literal| - 1])
         + EncodeArrayInfo(CountEntry(sizes[|sizes| - 1], literal[|literal| - 1]))
  }

  /** The `i`-th extent record of the span at `at`. */
  function ReadArrayInfo(pool: seq<Byte>, at: nat, i: nat): ArrayInfo
    requires at + SizeOfArrayInfo * (i + 1) <= |pool|
  {
    ArrayInfo(ReadU32(pool, at + SizeOfArrayInfo * i))
  }

  /**
    Entry `i` of the records written for `sizes` holds `CountEntry(sizes[i],
    literal[i])`: the literal as `value`, or the id as `specID` with
    `isSpecConstant` set.
   */
  lemma {:induction false} EncodeCountsReads(prefix: seq<Byte>, sizes: seq<U32>, literal: seq<bool>, i: nat)
    requires |sizes| == |literal| && i < |sizes|
    ensures ReadArrayInfo(prefix + EncodeCounts(sizes, literal), |prefix|, i) == CountEntry(sizes[i], literal[i])
    decreases |sizes|
  {
    var n := |sizes|;
    var front := prefix + EncodeCounts(sizes[..n - 1], literal[..n - 1]);
    var last := CountEntry(sizes[n - 1], literal[n - 1]);
    assert prefix + EncodeCounts(sizes, literal) == front + EncodeArrayInfo(last);
    if i == n - 1 {
      LastRecordReads(front, last);
    } else {
      EncodeCountsReads(prefix, sizes[..n - 1], literal[..n - 1], i);
      EarlierRecordReads(front, EncodeArrayInfo(last), |prefix| + SizeOfArrayInfo * i);
    }
  }

  /** Appending bytes leaves a word already inside the pool unchanged. */
  lemma EarlierRecordReads(p: seq<Byte>, q: seq<Byte>, at: nat)
    requires at + SizeOfU32 <= |p|
    ensures ReadU32(p + q, at) == ReadU32(p, at)
  {
    ReadU32Within([], p, q, at);
    assert [] + p + q == p + q;
  }

  /** A record appended after `p` reads back as itself. */
  lemma LastRecordReads(p: seq<Byte>, a: ArrayInfo)
    ensures ReadU32(p + EncodeArrayInfo(a), |p|) == a.value
  {
    ReadU32Within(p, EncodeArrayInfo(a), [], 0);
    assert p + EncodeArrayInfo(a) + [] == p + EncodeArrayInfo(a);
    ReadU32Encode(a.value);
  }

  /** The pool while `addCounts` runs: `i` records written, the rest still zero. */
  function CountsInProgress(before: seq<Byte>, sizes: seq<U32>, literal: seq<bool>, i: nat, count: nat): (pool: seq<Byte>)
    requires i <= count <= |sizes| && count <= |literal|
    ensures |pool| == |before| + SizeOfArrayInfo * count
  {
    before + EncodeCounts(sizes[..i], literal[..i]) + Zeros(SizeOfArrayInfo * (count - i))
  }

  /** The extent records still to be written are zero words. */
  lemma UnwrittenCountIsZero(before: seq<Byte>, sizes: seq<U32>, literal: seq<bool>, i: nat, count: nat)
    requires i < count <= |sizes| && count <= |literal|
    ensures ReadU32(CountsInProgress(before, sizes, literal, i, count), |before| + SizeOfArrayInfo * i) == 0
  {
    var done := before + EncodeCounts(sizes[..i], literal[..i]);
    ReadU32Within(done, Zeros(SizeOfArrayInfo * (count - i)), [], 0);
    assert done + Zeros(SizeOfArrayInfo * (count - i)) + [] == done + Zeros(SizeOfArrayInfo * (count - i));
  }

  /** Writing record `i` over the first zero word extends the written records by one. */
  lemma CountsStep(before: seq<Byte>, sizes: seq<U32>, literal: seq<bool>, i: nat, count: nat)
    requires i < count <= |sizes| && count <= |literal|
    ensures Overwrite(CountsInProgress(before, sizes, literal, i, count), |before| + SizeOfArrayInfo * i,
                      EncodeArrayInfo(CountEntry(sizes[i], literal[i])))
         == CountsInProgress(before, sizes, literal, i + 1, count)
  {
    var done := before + EncodeCounts(sizes[..i], literal[..i]);
    var record := EncodeArrayInfo(CountEntry(sizes[i], literal[i]));
    var rest := SizeOfArrayInfo * (count - i - 1);
    assert SizeOfArrayInfo * (count - i) == SizeOfArrayInfo + rest;
    OverwriteZerosFront(done, SizeOfArrayInfo + rest, record);
    assert sizes[..i + 1][..i] == sizes[..i] && literal[..i + 1][..i] == literal[..i];
    assert EncodeCounts(sizes[..i + 1], literal[..i + 1]) == EncodeCounts(sizes[..i], literal[..i]) + record;
    assert done + record + Zeros(rest) == before + EncodeCounts(sizes[..i + 1], literal[..i + 1]) + Zeros(rest);
  }

  /**
    What `addCounts` leaves behind, read back: each recorded extent is a
    literal exactly when the caller said so (for literals below 2^31), a
    spec-constant extent carries the id's low 31 bits, and an extent is
    runtime-sized exactly when it is a literal 0.
   */
  lemma RecordedExtents(prefix: seq<Byte>, sizes: seq<U32>, literal: seq<bool>, i: nat)
    requires |sizes| == |literal| && i < |sizes|
    ensures var a := ReadArrayInfo(prefix + EncodeCounts(sizes, literal), |prefix|, i);
      && (literal[i] && sizes[i] < SpecConstantBit ==> !IsSpecConstant(a) && a.value == sizes[i])
      && (!literal[i] ==> IsSpecConstant(a) && SpecId(a) == sizes[i] % SpecConstantBit && !IsRuntimeSized(a))
      && (IsRuntimeSized(a) <==> literal[i] && sizes[i] == 0)
  {
    EncodeCountsReads(prefix, sizes, literal, i);
  }

  lemma OverwriteInTail(p: seq<Byte>, q: seq<Byte>, k: nat, b: seq<Byte>)
    requires k + |b| <= |q|
    ensures Overwrite(p + q, |p| + k, b) == p + Overwrite(q, k, b)
  {
    assert (p + q)[..|p| + k] == p + q[..k];
    assert (p + q)[|p| + k + |b|..] == q[k + |b|..];
  }

  lemma OverwriteZerosFront(p: seq<Byte>, z: nat, b: seq<Byte>)
    requires |b| <= z
    ensures Overwrite(p + Zeros(z), |p|, b) == p + b + Zeros(z - |b|)
  {
    OverwriteInTail(p, Zeros(z), 0, b);
    assert Overwrite(Zeros(z), 0, b) == b + Zeros(z - |b|);
  }

  /** A node as `addType` writes it: two fields overwritten in a zeroed block. */
  lemma FreshTypeNodeWrites(memberCount: U32, storage: SizeT)
    ensures Overwrite(Overwrite(Zeros(SizeOfType), MemberCountField, EncodeLE(memberCount, SizeOfU32)),
                      MemberInfoStorageField, EncodeLE(storage, SizeOfBasedOffset))
         == FreshTypeNode(memberCount, storage)
  {
    var a := Overwrite(Zeros(SizeOfType), MemberCountField, EncodeLE(memberCount, SizeOfU32));
    assert a == Zeros(36) + EncodeLE(memberCount, 4) + Zeros(8);
    var b := Overwrite(a, MemberInfoStorageField, EncodeLE(storage, SizeOfBasedOffset));
    assert b == Zeros(36) + EncodeLE(memberCount, 4) + EncodeLE(storage, 8);
  }

  /**
    The node `addType` appends sits right after its zeroed member block and
    reads back with the requested member count and with the block's offset as
    `memberInfoStorage`.
   */
  lemma AddedTypeLayout(before: seq<Byte>, n: nat)
    requires n < U32Modulus
    requires |before| + StoragePerMember * n + SizeOfType <= MaxPoolSize
    ensures var pool := before + Zeros(StoragePerMember * n) + FreshTypeNode(n, |before|);
      && NodeHeader(pool, |before| + StoragePerMember * n) == TypeHeader(n, BasedOffset(|before|))
      && (forall k :: |before| <= k < |before| + StoragePerMember * n ==> pool[k] == 0)
  {
    var block := Zeros(StoragePerMember * n);
    FreshTypeNodeReads(before + block, [], n, |before|);
    assert before + block + FreshTypeNode(n, |before|) + [] == before + block + FreshTypeNode(n, |before|);
  }

  /**
    The five member tables of that node tile its member block exactly, the
    last one ending where the node begins.
   */
  lemma AddedTypeTables(before: seq<Byte>, n: nat)
    requires n < U32Modulus
    requires |before| + StoragePerMember * n + SizeOfType <= MaxPoolSize
    ensures Tiles(MemberTables(TypeHeader(n, BasedOffset(|before|))), |before|, |before| + StoragePerMember * n)
    ensures MemberStrides(TypeHeader(n, BasedOffset(|before|))).byteOffset + SizeOfU32 * n
         == |before| + StoragePerMember * n
  {
    MemberTablesTile(TypeHeader(n, BasedOffset(|before|)));
  }

  // ---------------------------------------------------------------- the type graph in the pool

  /** The node at `node` and its member-type table lie inside the pool. */
  predicate NodeInPool(pool: seq<Byte>, node: nat)
  {
    node + SizeOfType <= |pool| &&
    var t := NodeHeader(pool, node);
    t.memberInfoStorage.byteOffset + SizeOfBasedOffset * t.memberCount <= |pool|
  }

  /** The member-type handles of the node at `node`, first `k` of them. */
  function MemberTypeOffsets(pool: seq<Byte>, node: nat, k: nat): (r: seq<nat>)
    requires NodeInPool(pool, node) && k <= NodeHeader(pool, node).memberCount
    ensures |r| == k
    ensures forall i :: 0 <= i < k ==> r[i] == MemberTypeHandle(pool, NodeHeader(pool, node), i).byteOffset
  {
    if k == 0 then []
    else MemberTypeOffsets(pool, node, k - 1) + [MemberTypeHandle(pool, NodeHeader(pool, node), k - 1).byteOffset]
  }

  /**
    The type graph a pool encodes, as the member-type handles of every node
    offset that could hold a node, together with a ranking of the nodes: a
    witness that the graph below a node has no cycle (any finite acyclic
    graph has one, for instance the height of each node).
   */
  datatype TypeGraph = TypeGraph(members: map<nat, seq<nat>>, rank: map<nat, nat>)

  /** The graph of `pool`'s nodes, ranked by `rank`. */
  ghost function DecodedGraph(pool: seq<Byte>, rank: map<nat, nat>): TypeGraph
  {
    TypeGraph(DecodeNodes(pool, |pool|), rank)
  }

  /** The nodes at offsets below `n`, each with its member-type handles. */
  ghost function DecodeNodes(pool: seq<Byte>, n: nat): map<nat, seq<nat>>
    requires n <= |pool|
    decreases n
  {
    if n == 0 then map[]
    else if NodeInPool(pool, n - 1) then
      DecodeNodes(pool, n - 1)[n - 1 := MemberTypeOffsets(pool, n - 1, NodeHeader(pool, n - 1).memberCount)]
    else DecodeNodes(pool, n - 1)
  }

  /** A node of the decoded graph is a node in the pool, with the members it stores. */
  lemma {:induction false} DecodedNode(pool: seq<Byte>, n: nat, node: nat)
    requires n <= |pool| && node in DecodeNodes(pool, n)
    ensures NodeInPool(pool, node)
    ensures DecodeNodes(pool, n)[node] == MemberTypeOffsets(pool, node, NodeHeader(pool, node).memberCount)
    decreases n
  {
    if node != n - 1 || !NodeInPool(pool, n - 1) {
      DecodedNode(pool, n - 1, node);
    }
  }

  /**
    The graph below `node` can be walked: every node reached is one of the
    graph's nodes, and every member ranks below its parent, so the graph
    below `node` is acyclic, though members may be shared. Nothing is
    demanded of the order in which the nodes were allocated.
   */
  ghost predicate Walkable(g: TypeGraph, node: nat)
    decreases if node in g.rank then g.rank[node] else 0
  {
    node in g.rank && node in g.members &&
    forall i :: 0 <= i < |g.members[node]| ==>
      g.members[node][i] in g.rank && g.rank[g.members[node][i]] < g.rank[node] &&
      Walkable(g, g.members[node][i])
  }

  /** The nodes a pre-order walk from `node` hands to the visitor, in order. */
  ghost function PreOrder(g: TypeGraph, node: nat): seq<nat>
    requires Walkable(g, node)
    decreases g.rank[node], 1
  {
    [node] + MembersLastToFirst(g, node, |g.members[node]|)
  }

  /** The walks of members `k-1` down to `0`, one after the other. */
  ghost function MembersLastToFirst(g: TypeGraph, node: nat, k: nat): seq<nat>
    requires Walkable(g, node) && k <= |g.members[node]|
    decreases g.rank[node], 0, k
  {
    if k == 0 then []
    else PreOrder(g, g.members[node][k - 1]) + MembersLastToFirst(g, node, k - 1)
  }

  ghost predicate WellFormedBlock(g: TypeGraph, block: MemoryBlock)
  {
    IsValid(block.blockType) ==> Walkable(g, block.blockType.byteOffset)
  }

  /** What walking a memory block visits: nothing for a null root. */
  ghost function BlockPreOrder(g: TypeGraph, block: MemoryBlock): seq<nat>
    requires WellFormedBlock(g, block)
  {
    if IsValid(block.blockType) then PreOrder(g, block.blockType.byteOffset) else []
  }

  /** Every node on an explicit stack can be walked. */
  ghost predicate AllWalkable(g: TypeGraph, stk: seq<nat>)
    decreases |stk|
  {
    stk != [] ==> Walkable(g, stk[|stk| - 1]) && AllWalkable(g, stk[..|stk| - 1])
  }

  /** What is still to be visited for an explicit stack whose top is its last element. */
  ghost function StackOrder(g: TypeGraph, stk: seq<nat>): seq<nat>
    requires AllWalkable(g, stk)
    decreases |stk|
  {
    if stk == [] then [] else PreOrder(g, stk[|stk| - 1]) + StackOrder(g, stk[..|stk| - 1])
  }

  /** The number of distinct root-to-`target` paths below `node`. */
  ghost function PathCount(g: TypeGraph, node: nat, target: nat): nat
    requires Walkable(g, node)
    decreases g.rank[node], 1
  {
    (if node == target then 1 else 0) + MembersPathCount(g, node, |g.members[node]|, target)
  }

  ghost function MembersPathCount(g: TypeGraph, node: nat, k: nat, target: nat): nat
    requires Walkable(g, node) && k <= |g.members[node]|
    decreases g.rank[node], 0, k
  {
    if k == 0 then 0
    else PathCount(g, g.members[node][k - 1], target) + MembersPathCount(g, node, k - 1, target)
  }

  /**
    With no visited set, the walk hands every node to the visitor once per
    path that reaches it from the root: a member shared by several parents
    is visited once under each of them.
   */
  lemma {:induction false} PreOrderVisitsOncePerPath(g: TypeGraph, node: nat, target: nat)
    requires Walkable(g, node)
    ensures multiset(PreOrder(g, node))[target] == PathCount(g, node, target)
    decreases g.rank[node], 1
  {
    MembersVisitOncePerPath(g, node, |g.members[node]|, target);
  }

  lemma {:induction false} MembersVisitOncePerPath(g: TypeGraph, node: nat, k: nat, target: nat)
    requires Walkable(g, node) && k <= |g.members[node]|
    ensures multiset(MembersLastToFirst(g, node, k))[target] == MembersPathCount(g, node, k, target)
    decreases g.rank[node], 0, k
  {
    if k > 0 {
      PreOrderVisitsOncePerPath(g, g.members[node][k - 1], target);
      MembersVisitOncePerPath(g, node, k - 1, target);
    }
  }

  lemma {:induction false} MembersEndWithFirst(g: TypeGraph, node: nat, k: nat)
    requires Walkable(g, node) && 0 < k <= |g.members[node]|
    ensures var s := MembersLastToFirst(g, node, k);
      var first := PreOrder(g, g.members[node][0]);
      |first| <= |s| && s[|s| - |first|..] == first
  {
    if k > 1 {
      MembersEndWithFirst(g, node, k - 1);
      var s := MembersLastToFirst(g, node, k);
      var t := MembersLastToFirst(g, node, k - 1);
      var first := PreOrder(g, g.members[node][0]);
      assert s == PreOrder(g, g.members[node][k - 1]) + t;
      assert s[|s| - |first|..] == t[|t| - |first|..];
    }
  }

  /**
    The visitor sees a node before anything below it; of its members, the
    last one's walk comes first and the first one's walk comes last.
   */
  lemma PreOrderShape(g: TypeGraph, node: nat)
    requires Walkable(g, node)
    ensures var s := PreOrder(g, node);
      var m := g.members[node];
      && s[0] == node
      && (m != [] ==> |s| > 1 && s[1] == m[|m| - 1])
      && (m != [] ==> var first := PreOrder(g, m[0]);
                      |first| < |s| && s[|s| - |first|..] == first)
  {
    var m := g.members[node];
    if m != [] {
      MembersEndWithFirst(g, node, |m|);
      var s := PreOrder(g, node);
      var rest := MembersLastToFirst(g, node, |m|);
      assert s == [node] + rest;
      assert s[|s| - |rest|..] == rest;
    }
  }

  /**
    A member allocated before its parent, and shared by it twice, is walked
    under each use: node 48 lists node 0 as both of its members.
   */
  lemma SharedEarlierMemberWalkedTwice()
    ensures var g := TypeGraph(map[0 := [], 48 := [0, 0]], map[0 := 0, 48 := 1]);
      Walkable(g, 48) && PreOrder(g, 48) == [48, 0, 0] && PathCount(g, 48, 0) == 2
  {
    var g := TypeGraph(map[0 := [], 48 := [0, 0]], map[0 := 0, 48 := 1]);
    assert Walkable(g, 0);
    assert PreOrder(g, 0) == [0];
    assert PathCount(g, 0, 0) == 1;
    assert MembersLastToFirst(g, 48, 1) == [0];
    assert MembersPathCount(g, 48, 1, 0) == 1;
  }

  /** Popping the top of the stack leaves its walk to be done first. */
  lemma StackPop(g: TypeGraph, stk: seq<nat>)
    requires stk != [] && AllWalkable(g, stk)
    ensures Walkable(g, stk[|stk| - 1]) && AllWalkable(g, stk[..|stk| - 1])
    ensures StackOrder(g, stk)
         == [stk[|stk| - 1]] + MembersLastToFirst(g, stk[|stk| - 1], |g.members[stk[|stk| - 1]]|)
            + StackOrder(g, stk[..|stk| - 1])
  {
  }

  /**
    Pushing member `i` of `node` puts that member's walk in front of what the
    stack held, which is the next step down from the last member.
   */
  lemma StackPush(g: TypeGraph, stk: seq<nat>, rest: seq<nat>, node: nat, i: nat)
    requires Walkable(g, node) && i < |g.members[node]|
    requires AllWalkable(g, stk) && AllWalkable(g, rest)
    requires StackOrder(g, stk) == MembersLastToFirst(g, node, i) + StackOrder(g, rest)
    ensures AllWalkable(g, stk + [g.members[node][i]])
    ensures StackOrder(g, stk + [g.members[node][i]])
         == MembersLastToFirst(g, node, i + 1) + StackOrder(g, rest)
  {
    var pushed := stk + [g.members[node][i]];
    assert pushed[..|stk|] == stk;
    assert StackOrder(g, pushed) == PreOrder(g, g.members[node][i]) + StackOrder(g, stk);
  }

  // ---------------------------------------------------------------- the object

  class StageIntrospectionData {
    /** `m_params`: what the introspection was created from. */
    const params: SParams
    /** The finalized, queryable members. */
    const data: StageData
    /** `m_memPool`. */
    var memPool: seq<Byte>

    ghost predicate Valid()
      reads this
    {
      |memPool| <= MaxPoolSize
    }

    constructor(params: SParams, data: StageData)
      ensures Valid()
      ensures this.params == params && this.data == data && memPool == []
    {
      this.params := params;
      this.data := data;
      memPool := [];
    }

    /** `allocOffset(bytes)`: grow the pool by `bytes` zeros and return where they start. */
    method AllocOffset(bytes: nat) returns (off: SizeT)
      requires Valid() && |memPool| + bytes <= MaxPoolSize
      modifies this`memPool
      ensures Valid()
      ensures off == old(|memPool|)
      ensures memPool == old(memPool) + Zeros(bytes)
    {
      off := |memPool|;
      memPool := memPool + Zeros(bytes);
    }

    /** `alloc<T>(count)`, with `sizeof(T)` passed as `elementSize`. */
    method Alloc(elementSize: nat, count: nat) returns (range: BasedSpan)
      requires Valid() && elementSize > 0
      requires |memPool| + elementSize * count <= MaxPoolSize
      modifies this`memPool
      ensures Valid()
      ensures range == BasedSpan(old(|memPool|), count)
      ensures memPool == old(memPool) + Zeros(elementSize * count)
    {
      assert count <= elementSize * count;
      var off := AllocOffset(elementSize * count);
      range := BasedSpan(off, count);
    }

    /**
      `addCounts(count, sizes, size_is_literal)`: no allocation for no
      extents; otherwise one extent record per dimension, a literal written as
      the whole word, a spec-constant id written into the `specID` bits of the
      zeroed word before the flag bit is set.
     */
    method AddCounts(count: nat, sizes: seq<U32>, sizeIsLiteral: seq<bool>) returns (range: BasedSpan)
      requires Valid() && count <= |sizes| && count <= |sizeIsLiteral|
      requires |memPool| + SizeOfArrayInfo * count <= MaxPoolSize
      modifies this`memPool
      ensures Valid()
      ensures count == 0 ==> range == DefaultSpan()
      ensures count > 0 ==> range == BasedSpan(old(|memPool|), count)
      ensures memPool == old(memPool) + EncodeCounts(sizes[..count], sizeIsLiteral[..count])
    {
      if count == 0 {
        assert sizes[..0] == [];
        return DefaultSpan();
      }
      range := Alloc(SizeOfArrayInfo, count);
      ghost var before := old(memPool);
      var i := 0;
      while i < count
        invariant 0 <= i <= count
        invariant range.byteOffset == |before|
        invariant memPool == CountsInProgress(before, sizes, sizeIsLiteral, i, count)
      {
        var at := range.byteOffset + SizeOfArrayInfo * i;
        UnwrittenCountIsZero(before, sizes, sizeIsLiteral, i, count);
        var entry := CountRecord(at, sizes[i], sizeIsLiteral[i]);
        CountsStep(before, sizes, sizeIsLiteral, i, count);
        memPool := Overwrite(memPool, at, EncodeArrayInfo(entry));
        i := i + 1;
      }
      assert memPool == before + EncodeCounts(sizes[..count], sizeIsLiteral[..count]) + [];
    }

    /**
      One iteration of `addCounts` on the zeroed record at `at`: a literal is
      stored as `value`; otherwise the id goes into `specID` and the flag is
      set, over the zero word the allocation left there.
     */
    method CountRecord(at: nat, size: U32, isLiteral: bool) returns (entry: ArrayInfo)
      requires at + SizeOfArrayInfo <= |memPool| && ReadU32(memPool, at) == 0
      ensures entry == CountEntry(size, isLiteral)
    {
      if isLiteral {
        entry := ArrayInfo(size);
      } else {
        entry := ArrayInfo(ReadU32(memPool, at));
        entry := WithSpecId(entry, size);
        entry := WithSpecConstantFlag(entry);
        SpecEntryFromZero(size);
      }
    }

    /** `addString(str)`: `|str| + 1` bytes holding `str` and then a NUL. */
    method AddString(str: seq<Byte>) returns (range: BasedSpan)
      requires Valid() && |memPool| + |str| + 1 <= MaxPoolSize
      modifies this`memPool
      ensures Valid()
      ensures range == BasedSpan(old(|memPool|), |str| + 1)
      ensures memPool == old(memPool) + str + [0]
    {
      range := Alloc(1, |str| + 1);
      OverwriteZerosFront(old(memPool), |str| + 1, str);
      memPool := Overwrite(memPool, range.byteOffset, str);
      memPool := memPool[range.byteOffset + |str| := 0];
    }

    /**
      `addType(memberCount)`: the per-member block first, then the node right
      after it; only then are the node's `memberCount` (a `uint32_t`, so
      truncated) and `memberInfoStorage` written.
     */
    method AddType(memberCount: nat) returns (t: BasedOffset)
      requires Valid() && |memPool| + StoragePerMember * memberCount + SizeOfType <= MaxPoolSize
      modifies this`memPool
      ensures Valid()
      ensures t == BasedOffset(old(|memPool|) + StoragePerMember * memberCount)
      ensures memPool == old(memPool) + Zeros(StoragePerMember * memberCount)
                         + FreshTypeNode(memberCount % U32Modulus, old(|memPool|))
    {
      var memberStorage := AllocOffset(StoragePerMember * memberCount);
      var retval := Alloc(SizeOfType, 1);
      ghost var front := old(memPool) + Zeros(StoragePerMember * memberCount);
      assert memPool == front + Zeros(SizeOfType);
      var node := retval.byteOffset;
      var count: U32 := memberCount % U32Modulus;
      OverwriteInTail(front, Zeros(SizeOfType), MemberCountField, EncodeLE(count, SizeOfU32));
      memPool := Overwrite(memPool, node + MemberCountField, EncodeLE(count, SizeOfU32));
      ghost var half := Overwrite(Zeros(SizeOfType), MemberCountField, EncodeLE(count, SizeOfU32));
      OverwriteInTail(front, half, MemberInfoStorageField, EncodeLE(memberStorage, SizeOfBasedOffset));
      memPool := Overwrite(memPool, node + MemberInfoStorageField, EncodeLE(memberStorage, SizeOfBasedOffset));
      FreshTypeNodeWrites(count, memberStorage);
      t := BasedOffset(node);
    }

    /**
      The inner loop of the traversal: the handles of `node`'s members, first
      to last, pushed onto `stk`.
     */
    method PushMembers(ghost g: TypeGraph, stk: seq<nat>, node: nat, header: TypeHeader) returns (pushed: seq<nat>)
      requires g.members == DecodeNodes(memPool, |memPool|) && Walkable(g, node)
      requires NodeInPool(memPool, node) && header == NodeHeader(memPool, node)
      requires AllWalkable(g, stk)
      ensures AllWalkable(g, pushed)
      ensures StackOrder(g, pushed) == MembersLastToFirst(g, node, |g.members[node]|) + StackOrder(g, stk)
    {
      DecodedNode(memPool, |memPool|, node);
      ghost var members := g.members[node];
      pushed := stk;
      var i := 0;
      while i < header.memberCount
        invariant 0 <= i <= header.memberCount
        invariant AllWalkable(g, pushed)
        invariant StackOrder(g, pushed) == MembersLastToFirst(g, node, i) + StackOrder(g, stk)
      {
        var member := MemberTypeHandle(memPool, header, i).byteOffset;
        assert member == members[i];
        StackPush(g, pushed, stk, node, i);
        pushed := pushed + [member];
        i := i + 1;
      }
    }

    /**
      `visitMemoryBlockPreOrderDFS(block, pre)`: an explicit stack, members
      pushed first to last, no visited set. Returns the nodes handed to `pre`,
      in order. The ghost `rank` witnesses that the graph below the root has
      no cycle; a cyclic graph, which the loop would walk forever, has none.
     */
    method VisitMemoryBlockPreOrderDFS(block: MemoryBlock, ghost rank: map<nat, nat>) returns (visited: seq<nat>)
      requires WellFormedBlock(DecodedGraph(memPool, rank), block)
      ensures visited == BlockPreOrder(DecodedGraph(memPool, rank), block)
    {
      ghost var g := DecodedGraph(memPool, rank);
      var stk: seq<nat> := [];
      if IsValid(block.blockType) {
        stk := [block.blockType.byteOffset];
      }
      visited := [];
      while stk != []
        invariant AllWalkable(g, stk)
        invariant visited + StackOrder(g, stk) == BlockPreOrder(g, block)
        decreases |StackOrder(g, stk)|
      {
        StackPop(g, stk);
        var node := stk[|stk| - 1];
        DecodedNode(memPool, |memPool|, node);
        var header := NodeHeader(memPool, node);
        stk := stk[..|stk| - 1];
        stk := PushMembers(g, stk, node, header);
        visited := visited + [node];
      }
    }
  }
}
