/**
  `CPipelineIntrospectionData`: the state a pipeline's introspection
  accumulates while stages are merged into it, namely which stages touch each
  push-constant byte, one binding collection per descriptor set, and the
  highest binding number seen per set.
 */
module PipelineIntrospection {
  import opened Wrappers
  import opened BasedHandles
  import opened ShaderCommons
  import opened TypeLayout
  import opened StageInterface

  /** A `uint32_t : 21` bitfield. */
  type Count21 = x: int | 0 <= x < 0x20_0000
  /** A `uint32_t : 11` bitfield. */
  type Stride11 = x: int | 0 <= x < 0x800
  /** An `int32_t`. */
  type I32 = x: int | -0x8000_0000 <= x < 0x8000_0000

  /**
    `CPipelineIntrospectionData::SDescriptorInfo`: the base descriptor record
    (binding, type) plus the merged array extent, the array stride and the
    stages that use the binding.
   */
  datatype DescriptorInfo = DescriptorInfo(
    binding: U32,
    descriptorType: DescriptorType,
    count: Count21,
    stride: Stride11,
    stageMask: StageMask)

  /** A default-initialised record: binding `~0u`, type `ET_COUNT`, no extent, no stage. */
  function DefaultDescriptorInfo(): (d: DescriptorInfo)
    ensures d.binding == U32Modulus - 1 && d.descriptorType == Count
    ensures !IsArray(d) && !IsRuntimeSized(d) && d.stageMask == {}
  {
    DescriptorInfo(0xFFFF_FFFF, Count, 0, 0, {})
  }

  const U32Modulus: nat := 0x1_0000_0000

  /** `isArray()`: a non-zero stride. */
  predicate IsArray(d: DescriptorInfo)
  {
    d.stride != 0
  }

  /** `isRuntimeSized()`: an array whose count is 0. */
  predicate IsRuntimeSized(d: DescriptorInfo)
  {
    IsArray(d) && d.count == 0
  }

  /**
    The shape of a descriptor: a runtime-sized descriptor is an array, a
    counted array is never runtime-sized, and a non-array is neither, whatever
    its count says.
   */
  lemma {:induction false} DescriptorShape(d: DescriptorInfo)
    ensures IsRuntimeSized(d) ==> IsArray(d)
    ensures IsArray(d) && d.count > 0 ==> !IsRuntimeSized(d)
    ensures d.stride == 0 ==> !IsArray(d) && !IsRuntimeSized(d)
    ensures IsRuntimeSized(d) <==> d.stride > 0 && d.count == 0
  {
  }

  /** `CIntrospectionData::SDescriptorInfo::operator<`: ordered by binding only. */
  predicate DescriptorLess(a: DescriptorInfo, b: DescriptorInfo)
  {
    a.binding < b.binding
  }

  /**
    `operator<` is a strict weak order whose equivalence classes are the
    binding numbers, as sorting bindings needs.
   */
  lemma DescriptorLessIsStrictWeakOrder(a: DescriptorInfo, b: DescriptorInfo, c: DescriptorInfo)
    ensures !DescriptorLess(a, a)
    ensures DescriptorLess(a, b) && DescriptorLess(b, c) ==> DescriptorLess(a, c)
    ensures !DescriptorLess(a, b) && !DescriptorLess(b, a) <==> a.binding == b.binding
  {
  }

  /** `Hash::operator()`: the binding number itself. */
  function BindingHash(d: DescriptorInfo): nat
  {
    d.binding
  }

  /** `KeyEqual::operator()`: equal bindings, nothing else compared. */
  predicate BindingKeyEqual(a: DescriptorInfo, b: DescriptorInfo)
  {
    a.binding == b.binding
  }

  /** Keys that compare equal hash equal, and equality is an equivalence. */
  lemma BindingKeysAgree(a: DescriptorInfo, b: DescriptorInfo, c: DescriptorInfo)
    ensures BindingKeyEqual(a, b) ==> BindingHash(a) == BindingHash(b)
    ensures BindingKeyEqual(a, a)
    ensures BindingKeyEqual(a, b) ==> BindingKeyEqual(b, a)
    ensures BindingKeyEqual(a, b) && BindingKeyEqual(b, c) ==> BindingKeyEqual(a, c)
  {
  }

  /** No two entries of one set's collection share a binding number. */
  predicate DistinctBindings(entries: seq<DescriptorInfo>)
  {
    forall i, j :: 0 <= i < j < |entries| ==> entries[i].binding != entries[j].binding
  }

  /**
    The lookup of an unordered set hashed and compared by binding: the entry
    with that binding, if any (the last such, so that the answer is defined on
    any sequence).
   */
  function FindBinding(entries: seq<DescriptorInfo>, binding: U32): (r: Option<DescriptorInfo>)
    ensures r.Some? ==> r.value in entries && r.value.binding == binding
    ensures r.None? <==> forall i :: 0 <= i < |entries| ==> entries[i].binding != binding
  {
    if entries == [] then None
    else if entries[|entries| - 1].binding == binding then Some(entries[|entries| - 1])
    else
      var r := FindBinding(entries[..|entries| - 1], binding);
      assert forall i :: 0 <= i < |entries| - 1 ==> entries[..|entries| - 1][i] == entries[i];
      r
  }

  /** In a collection without repeated bindings, the lookup returns the one entry with that binding. */
  lemma {:induction false} FindBindingUnique(entries: seq<DescriptorInfo>, k: nat)
    requires DistinctBindings(entries) && k < |entries|
    ensures FindBinding(entries, entries[k].binding) == Some(entries[k])
    decreases |entries|
  {
    var n := |entries|;
    if k < n - 1 {
      var front := entries[..n - 1];
      assert entries[n - 1].binding != entries[k].binding;
      assert DistinctBindings(front) by {
        forall i, j | 0 <= i < j < |front| ensures front[i].binding != front[j].binding {
          assert front[i] == entries[i] && front[j] == entries[j];
        }
      }
      assert front[k] == entries[k];
      FindBindingUnique(front, k);
    }
  }

  /**
    `m_descriptorSetBindings[set].insert(info)`: a no-op when the binding is
    already present. The collection only grows, by at most one entry; it is
    unchanged exactly when some entry already has the binding; and afterwards
    some entry has it.
   */
  function InsertBinding(entries: seq<DescriptorInfo>, d: DescriptorInfo): (r: seq<DescriptorInfo>)
    ensures entries <= r && |r| <= |entries| + 1
    ensures (exists i :: 0 <= i < |entries| && entries[i].binding == d.binding) <==> r == entries
    ensures exists i :: 0 <= i < |r| && r[i].binding == d.binding
  {
    if FindBinding(entries, d.binding).Some? then entries
    else
      assert (entries + [d])[|entries|] == d;
      entries + [d]
  }

  /**
    Insertion keeps one entry per binding; a later lookup of the inserted
    binding returns the entry already there, or the new one if there was none;
    other bindings answer as before.
   */
  lemma {:induction false} InsertBindingKeepsOnePerBinding(entries: seq<DescriptorInfo>, d: DescriptorInfo, other: U32)
    requires DistinctBindings(entries)
    ensures DistinctBindings(InsertBinding(entries, d))
    ensures FindBinding(entries, d.binding).None? ==> FindBinding(InsertBinding(entries, d), d.binding) == Some(d)
    ensures FindBinding(entries, d.binding).Some? ==>
      FindBinding(InsertBinding(entries, d), d.binding) == FindBinding(entries, d.binding)
    ensures other != d.binding ==> FindBinding(InsertBinding(entries, d), other) == FindBinding(entries, other)
  {
    var r := InsertBinding(entries, d);
    if FindBinding(entries, d.binding).None? {
      assert r == entries + [d];
      assert forall i :: 0 <= i < |entries| ==> r[i] == entries[i];
      assert r[..|r| - 1] == entries;
    }
  }

  class PipelineIntrospectionData {
    /** `m_pushConstantBytes`: per byte, the stages that declare it; empty means `ESS_UNKNOWN`. */
    const pushConstantBytes: array<StageMask>
    /** `m_descriptorSetBindings`: one collection per descriptor set, in insertion order. */
    var descriptorSetBindings: seq<seq<DescriptorInfo>>
    /** `m_highestBindingNumbers`: per set, -1 until a binding is merged. */
    const highestBindingNumbers: array<I32>

    /** The fixed shapes, and one entry per binding number in every set. */
    ghost predicate Valid()
      reads this
    {
      && pushConstantBytes.Length == MaxPushConstantsSize
      && highestBindingNumbers.Length == DescriptorSetCount
      && pushConstantBytes != highestBindingNumbers as object
      && |descriptorSetBindings| == DescriptorSetCount
      && forall s :: 0 <= s < |descriptorSetBindings| ==> DistinctBindings(descriptorSetBindings[s])
    }

    /**
      The constructor: every push-constant byte is undeclared, every set's
      collection is empty and every highest binding number is -1.
     */
    constructor()
      ensures Valid() && fresh(pushConstantBytes) && fresh(highestBindingNumbers)
      ensures forall b :: 0 <= b < pushConstantBytes.Length ==> pushConstantBytes[b] == {}
      ensures forall s :: 0 <= s < highestBindingNumbers.Length ==> highestBindingNumbers[s] == -1
      ensures descriptorSetBindings == [[], [], [], []]
    {
      var bytes := new StageMask[MaxPushConstantsSize];
      var b := 0;
      while b < bytes.Length
        invariant 0 <= b <= bytes.Length
        invariant forall k :: 0 <= k < b ==> bytes[k] == {}
      {
        bytes[b] := {};
        b := b + 1;
      }
      var highest := new I32[DescriptorSetCount];
      var s := 0;
      while s < highest.Length
        invariant 0 <= s <= highest.Length
        invariant forall k :: 0 <= k < s ==> highest[k] == -1
        invariant forall k :: 0 <= k < bytes.Length ==> bytes[k] == {}
      {
        highest[s] := -1;
        s := s + 1;
      }
      pushConstantBytes := bytes;
      highestBindingNumbers := highest;
      descriptorSetBindings := [[], [], [], []];
    }

    /**
      Inserting into set `setIndex`'s collection: `false`, and nothing
      changes, when an entry with that binding is already there; otherwise
      the entry is added.
     */
    method AddBinding(setIndex: nat, d: DescriptorInfo) returns (inserted: bool)
      requires Valid() && setIndex < DescriptorSetCount
      modifies this`descriptorSetBindings
      ensures Valid()
      ensures inserted <==> FindBinding(old(descriptorSetBindings[setIndex]), d.binding).None?
      ensures descriptorSetBindings == old(descriptorSetBindings[setIndex := InsertBinding(descriptorSetBindings[setIndex], d)])
    {
      var entries := descriptorSetBindings[setIndex];
      inserted := FindBinding(entries, d.binding).None?;
      InsertBindingKeepsOnePerBinding(entries, d, d.binding);
      descriptorSetBindings := descriptorSetBindings[setIndex := InsertBinding(entries, d)];
    }

    /** The entry of set `setIndex` with the given binding, if there is one. */
    function Binding(setIndex: nat, binding: U32): (r: Option<DescriptorInfo>)
      requires Valid() && setIndex < DescriptorSetCount
      reads this
      ensures r.Some? ==> r.value.binding == binding && r.value in descriptorSetBindings[setIndex]
      ensures r.None? <==> forall d :: d in descriptorSetBindings[setIndex] ==> d.binding != binding
    {
      FindBinding(descriptorSetBindings[setIndex], binding)
    }
  }
}
