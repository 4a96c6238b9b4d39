/**
  Type information of the introspector: array extents (`SArrayInfo`), the
  shape bits of a type (`STypeInfo`), the byte layout of a type node
  (`SType<true>`) and of the per-member storage block it owns, and the
  finalized, pointer-based view of a type (`SType<false>`) as a value tree.
 */
module TypeLayout {
  import opened Bytes
  import opened BasedHandles

  type U32 = x: int | 0 <= x < 0x1_0000_0000

  // ---------------------------------------------------------------- SArrayInfo

  /** Bit 31 of the extent word: the `isSpecConstant` bit-field. */
  const SpecConstantBit: U32 := 0x8000_0000

  /**
    `SArrayInfo`: one array extent. The union overlays the 32-bit `value`
    with a 31-bit `specID` and a 1-bit `isSpecConstant` flag; the model keeps
    the word and reads the fields out of it (low 31 bits, top bit).
   */
  datatype ArrayInfo = ArrayInfo(value: U32)

  /** A default-constructed extent: `value = 0`. */
  function DefaultArrayInfo(): ArrayInfo
  {
    ArrayInfo(0)
  }

  function SpecId(a: ArrayInfo): nat
  {
    a.value % SpecConstantBit
  }

  predicate IsSpecConstant(a: ArrayInfo)
  {
    a.value >= SpecConstantBit
  }

  /** `isRuntimeSized()`: a literal extent of 0. */
  predicate IsRuntimeSized(a: ArrayInfo)
  {
    !IsSpecConstant(a) && a.value == 0
  }

  /**
    The extent `addCounts` records for one dimension: a literal is stored in
    `value`; otherwise the id goes into the 31-bit `specID` field of a zeroed
    word and `isSpecConstant` is set.
   */
  function CountEntry(size: U32, isLiteral: bool): (a: ArrayInfo)
    ensures isLiteral ==> a.value == size
    ensures !isLiteral ==> SpecId(a) == size % SpecConstantBit
    ensures IsSpecConstant(a) <==> !isLiteral || size >= SpecConstantBit
    ensures IsRuntimeSized(a) <==> isLiteral && size == 0
  {
    if isLiteral then ArrayInfo(size) else ArrayInfo(size % SpecConstantBit + SpecConstantBit)
  }

  /** Assigning the 31-bit `specID` field: the flag bit is kept. */
  function WithSpecId(a: ArrayInfo, id: U32): (r: ArrayInfo)
    ensures SpecId(r) == id % SpecConstantBit
    ensures IsSpecConstant(r) == IsSpecConstant(a)
  {
    ArrayInfo((a.value / SpecConstantBit) * SpecConstantBit + id % SpecConstantBit)
  }

  /** Setting the `isSpecConstant` bit: the `specID` bits are kept. */
  function WithSpecConstantFlag(a: ArrayInfo): (r: ArrayInfo)
    ensures IsSpecConstant(r)
    ensures SpecId(r) == SpecId(a)
  {
    ArrayInfo(a.value % SpecConstantBit + SpecConstantBit)
  }

  /**
    Writing the id into a zeroed word and then setting the flag, as
    `addCounts` does for a spec-constant extent, gives `CountEntry`'s word.
   */
  lemma SpecEntryFromZero(id: U32)
    ensures WithSpecConstantFlag(WithSpecId(ArrayInfo(0), id)) == CountEntry(id, false)
  {
  }

  /** The four bytes of an extent in the pool. */
  function EncodeArrayInfo(a: ArrayInfo): (b: seq<Byte>)
    ensures |b| == SizeOfArrayInfo
  {
    EncodeLE(a.value, SizeOfArrayInfo)
  }

  /** A default extent is runtime-sized: a zero literal. */
  lemma DefaultArrayInfoIsRuntimeSized()
    ensures IsRuntimeSized(DefaultArrayInfo()) && !IsSpecConstant(DefaultArrayInfo())
  {
  }

  // ---------------------------------------------------------------- STypeInfo

  /** `VAR_TYPE`. */
  datatype VarType =
    | UnknownOrStruct
    | Uint64 | Int64 | Uint32 | Int32 | Uint16 | Int16 | Uint8 | Int8
    | Float64 | Float32 | Float16

  type Bits2 = x: int | 0 <= x < 4
  type Bits11 = x: int | 0 <= x < 2048

  /** `STypeInfo`: bit-fields stored as bounded fields (their placement is not modelled). */
  datatype TypeInfo = TypeInfo(
    lastRow: Bits2,
    lastCol: Bits2,
    rowMajor: bool,
    stride: Bits11,
    varType: VarType,
    restrict: bool,
    aliased: bool)

  /** The default member initialisers of `STypeInfo`. */
  function DefaultTypeInfo(): TypeInfo
  {
    TypeInfo(0, 0, true, 0, UnknownOrStruct, false, false)
  }

  predicate IsScalar(t: TypeInfo)
  {
    t.lastRow == 0 && t.lastCol == 0
  }

  predicate IsVector(t: TypeInfo)
  {
    t.lastRow > 0 && t.lastCol == 0
  }

  predicate IsMatrix(t: TypeInfo)
  {
    t.lastRow > 0 && t.stride > 0
  }

  /**
    How the three shape tests relate: a scalar is neither a vector nor a
    matrix; a matrix needs a non-zero stride; and because `isMatrix` does not
    look at `lastCol`, a vector shape with a non-zero stride passes both
    `isVector` and `isMatrix`.
   */
  lemma ShapeTests(t: TypeInfo)
    ensures IsScalar(t) ==> !IsVector(t) && !IsMatrix(t)
    ensures t.stride == 0 ==> !IsMatrix(t)
    ensures IsVector(t) && IsMatrix(t) <==> t.lastRow > 0 && t.lastCol == 0 && t.stride > 0
    ensures IsScalar(DefaultTypeInfo())
  {
  }

  // ---------------------------------------------------------------- SType<true> layout

  /** `sizeof` of the handle types on a 64-bit target. */
  const SizeOfBasedOffset: nat := 8
  const SizeOfBasedSpan: nat := 16
  const SizeOfU32: nat := 4
  const SizeOfArrayInfo: nat := 4

  /** `SType::StoragePerMember`: one type handle, one name span, size, offset and stride. */
  const StoragePerMember: nat := SizeOfBasedOffset + SizeOfBasedSpan + SizeOfU32 + SizeOfU32 + SizeOfU32

  /** Field offsets of `SType<true>` (typeName, count, info, memberCount, memberInfoStorage). */
  const TypeNameField: nat := 0
  const CountField: nat := 16
  const InfoField: nat := 32
  const MemberCountField: nat := 36
  const MemberInfoStorageField: nat := 40
  /** `sizeof(SType<true>)`. */
  const SizeOfType: nat := 48

  /** The storage-describing part of a node: `memberCount` and `memberInfoStorage`. */
  datatype TypeHeader = TypeHeader(memberCount: U32, memberInfoStorage: BasedOffset)

  /** `memberTypes()`: the storage block reinterpreted as a table of type handles. */
  function MemberTypes(t: TypeHeader): BasedOffset
  {
    t.memberInfoStorage
  }

  /** `memberNames()`: past `memberCount` type handles. */
  function MemberNames(t: TypeHeader): BasedOffset
  {
    Advance(MemberTypes(t), SizeOfBasedOffset, t.memberCount)
  }

  /** `memberSizes()`: past `memberCount` name spans. */
  function MemberSizes(t: TypeHeader): BasedOffset
  {
    Advance(MemberNames(t), SizeOfBasedSpan, t.memberCount)
  }

  /** `memberOffsets()`: past `memberCount` sizes. */
  function MemberOffsets(t: TypeHeader): BasedOffset
  {
    Advance(MemberSizes(t), SizeOfU32, t.memberCount)
  }

  /** `memberStrides()`: past `memberCount` offsets. */
  function MemberStrides(t: TypeHeader): BasedOffset
  {
    Advance(MemberOffsets(t), SizeOfU32, t.memberCount)
  }

  /** A byte range `[start, start + len)`. */
  datatype Interval = Interval(start: int, len: nat)

  function End(r: Interval): int
  {
    r.start + r.len
  }

  /** The five per-member tables, in storage order, as byte ranges. */
  function MemberTables(t: TypeHeader): (r: seq<Interval>)
    ensures |r| == 5
  {
    var c := t.memberCount;
    [ Interval(MemberTypes(t).byteOffset, SizeOfBasedOffset * c),
      Interval(MemberNames(t).byteOffset, SizeOfBasedSpan * c),
      Interval(MemberSizes(t).byteOffset, SizeOfU32 * c),
      Interval(MemberOffsets(t).byteOffset, SizeOfU32 * c),
      Interval(MemberStrides(t).byteOffset, SizeOfU32 * c) ]
  }

  /** `rs` lie back to back, the first starting at `start`, the last ending at `end`. */
  ghost predicate Tiles(rs: seq<Interval>, start: int, end: int)
    decreases |rs|
  {
    if rs == [] then start == end
    else rs[0].start == start && Tiles(rs[1..], End(rs[0]), end)
  }

  /** Ranges that tile `[start, end)` lie inside it, in order, and do not overlap. */
  lemma {:induction false} TilesDisjoint(rs: seq<Interval>, start: int, end: int)
    requires Tiles(rs, start, end)
    ensures forall i :: 0 <= i < |rs| ==> start <= rs[i].start && End(rs[i]) <= end
    ensures forall i, j :: 0 <= i < j < |rs| ==> End(rs[i]) <= rs[j].start
    decreases |rs|
  {
    if rs != [] {
      TilesDisjoint(rs[1..], End(rs[0]), end);
      assert forall i :: 1 <= i < |rs| ==> rs[i] == rs[1..][i - 1];
    }
  }

  /** Advancing within the 64-bit range is plain addition. */
  lemma AdvanceExact(h: BasedOffset, elementSize: nat, n: nat)
    requires h.byteOffset + elementSize * n < SizeTModulus
    ensures Advance(h, elementSize, n).byteOffset == h.byteOffset + elementSize * n
  {
  }

  /**
    The five tables carved out of one `StoragePerMember * memberCount` block
    lie back to back in the order types, names, sizes, offsets, strides, and
    cover the block exactly, when the block fits below the sentinel offset.
   */
  lemma MemberTablesTile(t: TypeHeader)
    requires t.memberInfoStorage.byteOffset + StoragePerMember * t.memberCount < InvalidOffset
    ensures Tiles(MemberTables(t), t.memberInfoStorage.byteOffset,
                  t.memberInfoStorage.byteOffset + StoragePerMember * t.memberCount)
    ensures MemberStrides(t).byteOffset + SizeOfU32 * t.memberCount
         == t.memberInfoStorage.byteOffset + StoragePerMember * t.memberCount
  {
    var s: int, c: int := t.memberInfoStorage.byteOffset, t.memberCount;
    AdvanceExact(MemberTypes(t), SizeOfBasedOffset, c);
    AdvanceExact(MemberNames(t), SizeOfBasedSpan, c);
    AdvanceExact(MemberSizes(t), SizeOfU32, c);
    AdvanceExact(MemberOffsets(t), SizeOfU32, c);
    assert MemberStrides(t).byteOffset == s + 32 * c;
    var rs := MemberTables(t);
    assert Tiles(rs[5..], s + 36 * c, s + 36 * c);
    assert Tiles(rs[4..], s + 32 * c, s + 36 * c);
    assert Tiles(rs[3..], s + 28 * c, s + 36 * c);
    assert Tiles(rs[2..], s + 24 * c, s + 36 * c);
    assert Tiles(rs[1..], s + 8 * c, s + 36 * c);
  }

  /**
    Consequently the tables are pairwise disjoint, and the slot of member `i`
    in any table lies inside that table.
   */
  lemma MemberTablesDisjoint(t: TypeHeader)
    requires t.memberInfoStorage.byteOffset + StoragePerMember * t.memberCount < InvalidOffset
    ensures forall i, j :: 0 <= i < j < 5 ==> End(MemberTables(t)[i]) <= MemberTables(t)[j].start
    ensures forall i :: 0 <= i < 5 ==>
      t.memberInfoStorage.byteOffset <= MemberTables(t)[i].start &&
      End(MemberTables(t)[i]) <= t.memberInfoStorage.byteOffset + StoragePerMember * t.memberCount
  {
    MemberTablesTile(t);
    TilesDisjoint(MemberTables(t), t.memberInfoStorage.byteOffset,
                  t.memberInfoStorage.byteOffset + StoragePerMember * t.memberCount);
  }

  // ---------------------------------------------------------------- nodes in the pool

  /** The bytes of a node as `addType` leaves it: zero except `memberCount` and `memberInfoStorage`. */
  function FreshTypeNode(memberCount: U32, storage: SizeT): (b: seq<Byte>)
    ensures |b| == SizeOfType
  {
    Zeros(MemberCountField) + EncodeLE(memberCount, SizeOfU32) + EncodeLE(storage, SizeOfBasedOffset)
  }

  /** The `memberCount` and `memberInfoStorage` fields of the node at `node`. */
  function NodeHeader(pool: seq<Byte>, node: nat): TypeHeader
    requires node + SizeOfType <= |pool|
  {
    TypeHeader(ReadU32(pool, node + MemberCountField),
               BasedOffset(ReadU64(pool, node + MemberInfoStorageField)))
  }

  /** A `based_span` stored in 16 bytes at `at`: offset, then element count. */
  function ReadSpan(pool: seq<Byte>, at: nat): BasedSpan
    requires at + SizeOfBasedSpan <= |pool|
  {
    BasedSpan(ReadU64(pool, at), ReadU64(pool, at + 8))
  }

  /**
    A node written by `addType` reads back with the given member count and
    storage offset, and with empty `typeName` and `count` spans (so it is not
    an array).
   */
  lemma FreshTypeNodeReads(before: seq<Byte>, after: seq<Byte>, memberCount: U32, storage: SizeT)
    ensures var pool := before + FreshTypeNode(memberCount, storage) + after;
      && NodeHeader(pool, |before|) == TypeHeader(memberCount, BasedOffset(storage))
      && ReadSpan(pool, |before| + TypeNameField) == BasedSpan(0, 0)
      && ReadSpan(pool, |before| + CountField) == BasedSpan(0, 0)
  {
    var f := FreshTypeNode(memberCount, storage);
    FreshTypeNodeFields(memberCount, storage);
    ReadU32Within(before, f, after, MemberCountField);
    ReadU64Within(before, f, after, MemberInfoStorageField);
    ReadU64Within(before, f, after, 0);
    ReadU64Within(before, f, after, 8);
    ReadU64Within(before, f, after, 16);
    ReadU64Within(before, f, after, 24);
  }

  /** The fields of a node as `addType` writes it, read inside the node. */
  lemma FreshTypeNodeFields(memberCount: U32, storage: SizeT)
    ensures var f := FreshTypeNode(memberCount, storage);
      && ReadU32(f, MemberCountField) == memberCount
      && ReadU64(f, MemberInfoStorageField) == storage
      && ReadU64(f, 0) == 0 && ReadU64(f, 8) == 0 && ReadU64(f, 16) == 0 && ReadU64(f, 24) == 0
  {
    FreshTypeNodeHeaderFields(memberCount, storage);
    FreshTypeNodeSpanFields(memberCount, storage);
  }

  /** The `memberCount` and `memberInfoStorage` fields of a fresh node. */
  lemma FreshTypeNodeHeaderFields(memberCount: U32, storage: SizeT)
    ensures var f := FreshTypeNode(memberCount, storage);
      && ReadU32(f, MemberCountField) == memberCount
      && ReadU64(f, MemberInfoStorageField) == storage
  {
    var z, c, m := Zeros(MemberCountField), EncodeLE(memberCount, SizeOfU32), EncodeLE(storage, SizeOfBasedOffset);
    ReadU32Within(z, c, m, 0);
    ReadU32Encode(memberCount);
    ReadU64Within(z + c, m, [], 0);
    assert z + c + m + [] == z + c + m;
    ReadU64Encode(storage);
  }

  /** The `typeName` and `count` spans of a fresh node are all zero bytes. */
  lemma FreshTypeNodeSpanFields(memberCount: U32, storage: SizeT)
    ensures var f := FreshTypeNode(memberCount, storage);
      ReadU64(f, 0) == 0 && ReadU64(f, 8) == 0 && ReadU64(f, 16) == 0 && ReadU64(f, 24) == 0
  {
    var z, cm := Zeros(MemberCountField), EncodeLE(memberCount, SizeOfU32) + EncodeLE(storage, SizeOfBasedOffset);
    assert FreshTypeNode(memberCount, storage) == [] + z + cm;
    ReadU64Within([], z, cm, 0);
    ReadU64Within([], z, cm, 8);
    ReadU64Within([], z, cm, 16);
    ReadU64Within([], z, cm, 24);
  }

  /** The `i`-th entry of a node's member-type table: a handle to the member's node. */
  function MemberTypeHandle(pool: seq<Byte>, t: TypeHeader, i: nat): BasedOffset
    requires t.memberInfoStorage.byteOffset + SizeOfBasedOffset * (i + 1) <= |pool|
  {
    BasedOffset(ReadU64(pool, t.memberInfoStorage.byteOffset + SizeOfBasedOffset * i))
  }

  // ---------------------------------------------------------------- SType<false>

  /**
    `SType<false>`: the finalized type, reached through plain pointers. The
    member tables are kept as five parallel sequences.
   */
  datatype TypeNode = TypeNode(
    typeName: seq<Byte>,
    count: seq<ArrayInfo>,
    info: TypeInfo,
    memberTypes: seq<TypeNode>,
    memberNames: seq<seq<Byte>>,
    memberSizes: seq<U32>,
    memberOffsets: seq<U32>,
    memberStrides: seq<U32>)

  function MemberCount(t: TypeNode): nat
  {
    |t.memberTypes|
  }

  /** All five member tables have `memberCount` entries. */
  predicate WellShaped(t: TypeNode)
  {
    |t.memberNames| == MemberCount(t) && |t.memberSizes| == MemberCount(t) &&
    |t.memberOffsets| == MemberCount(t) && |t.memberStrides| == MemberCount(t)
  }

  /** `isArray()`: the type has at least one recorded extent. */
  predicate TypeIsArray(t: TypeNode)
  {
    |t.count| > 0
  }
}
