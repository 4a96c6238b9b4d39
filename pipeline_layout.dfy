/**
  `IPipelineLayout<DescLayoutType>`: four descriptor-set layout slots and an
  owned copy of the push-constant ranges handed to the constructor. A layout
  reference is an `Option<L>` (`None` for a null pointer); the constructor's
  `[begin, end)` pointer pair is the sequence of ranges it spans.
 */
module PipelineLayout {
  import opened Wrappers
  import opened ShaderCommons
  import opened TypeLayout

  /** The number of descriptor-set layout slots. */
  const DescriptorSetSlots: nat := 4

  /** `SPushConstantRange`: the stages that see the range, and its byte offset and size. */
  datatype PushConstantRange = PushConstantRange(stageFlags: StageMask, offset: U32, size: U32)

  /**
    The constructor's copy step as written: `std::copy` targets
    `m_pushConstantRanges->begin()`, and for an empty range list that member
    was just set to null, so the copy dereferences a null pointer before it
    copies nothing.
   */
  function CopyTargetAsWritten(ranges: seq<PushConstantRange>): Result<seq<PushConstantRange>, string>
  {
    if ranges == [] then Failure("null dereference of m_pushConstantRanges") else Success(ranges)
  }

  /**
    The written copy fails exactly for an empty range list, the default
    constructor's `begin == end == nullptr` included, which is also exactly
    when the corrected constructor stores no array; every other list is
    copied whole.
   */
  lemma DefaultConstructionDereferencesNullAsWritten(ranges: seq<PushConstantRange>)
    ensures CopyTargetAsWritten([]).Failure?
    ensures CopyTargetAsWritten(ranges).Failure? <==> ranges == []
    ensures ranges != [] ==> CopyTargetAsWritten(ranges) == Success(ranges)
  {
  }

  class PipelineLayout<L> {
    /** `m_descSetLayouts`. */
    const descSetLayouts: array<Option<L>>
    /** `m_pushConstantRanges`: null when no range was given. */
    const pushConstantRanges: array?<PushConstantRange>

    /** Four slots, and a stored range array only when there is at least one range. */
    ghost predicate Valid()
      reads this
    {
      descSetLayouts.Length == DescriptorSetSlots &&
      (pushConstantRanges != null ==> pushConstantRanges.Length > 0)
    }

    /**
      The constructor. Every argument may be omitted: no ranges and null
      layouts. The four slots take the four layouts in order; the ranges are
      copied into a fresh array of exactly their number, or not stored at all
      when there are none. The copy is skipped in that case, which is what the
      source evidently intends.
     */
    constructor(ranges: seq<PushConstantRange> := [],
                layout0: Option<L> := None, layout1: Option<L> := None,
                layout2: Option<L> := None, layout3: Option<L> := None)
      ensures Valid()
      ensures descSetLayouts[..] == [layout0, layout1, layout2, layout3]
      ensures pushConstantRanges == null <==> ranges == []
      ensures pushConstantRanges != null ==> fresh(pushConstantRanges) && pushConstantRanges[..] == ranges
      ensures fresh(descSetLayouts)
    {
      var slots := new Option<L>[] [layout0, layout1, layout2, layout3];
      descSetLayouts := slots;
      if ranges == [] {
        pushConstantRanges := null;
      } else {
        var copy := new PushConstantRange[|ranges|];
        var i := 0;
        while i < |ranges|
          invariant 0 <= i <= |ranges|
          invariant copy[..i] == ranges[..i]
          invariant slots[..] == [layout0, layout1, layout2, layout3]
        {
          copy[i] := ranges[i];
          i := i + 1;
        }
        assert copy[..] == copy[..|ranges|];
        pushConstantRanges := copy;
      }
    }

    /** `getDescriptorSetLayout(set)`: the layout in slot `setIndex` (the source does not check the index). */
    function GetDescriptorSetLayout(setIndex: nat): (r: Option<L>)
      requires Valid() && setIndex < DescriptorSetSlots
      reads this, descSetLayouts
    {
      descSetLayouts[setIndex]
    }

    /** `getPushConstantRanges()`: the stored array, null exactly when no range was given. */
    function GetPushConstantRanges(): (r: array?<PushConstantRange>)
      requires Valid()
      reads this
      ensures r != null ==> r.Length > 0
    {
      pushConstantRanges
    }
  }

  /**
    What the getters of a freshly built layout answer: the i-th layout passed
    in slot i, no range array for an empty range list, and otherwise exactly
    the given ranges in order.
   */
  method ConstructAndQuery<L>(ranges: seq<PushConstantRange>, l0: Option<L>, l1: Option<L>, l2: Option<L>, l3: Option<L>)
      returns (layouts: seq<Option<L>>, stored: Option<seq<PushConstantRange>>)
    ensures layouts == [l0, l1, l2, l3]
    ensures stored.None? <==> ranges == []
    ensures stored.Some? ==> stored.value == ranges
  {
    var p := new PipelineLayout<L>(ranges, l0, l1, l2, l3);
    var a := p.GetDescriptorSetLayout(0);
    var b := p.GetDescriptorSetLayout(1);
    var c := p.GetDescriptorSetLayout(2);
    var d := p.GetDescriptorSetLayout(3);
    layouts := [a, b, c, d];
    var r := p.GetPushConstantRanges();
    if r == null {
      stored := None;
    } else {
      stored := Some(r[..]);
    }
  }
}
