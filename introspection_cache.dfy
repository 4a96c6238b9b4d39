/**
  `CSPIRVIntrospector::introspect` and its cache: an unordered set of shared
  stage introspections, hashed by `KeyHasher` and compared by `KeyEquals`,
  both transparent so that a lookup can be keyed on an `SParams`.
 */
module IntrospectionCache {
  import opened Wrappers
  import opened Bytes
  import opened ShaderCommons
  import opened StageInterface
  import opened StageIntrospection

  /**
    The library hashing `KeyHasher` combines: `std::hash<std::string_view>`
    over the code bytes, then `hash_combine` with the entry point and with the
    stage. Their values are left open; only that they are functions matters.
   */
  datatype Hasher = Hasher(
    hashCode: seq<Byte> -> nat,
    combineEntryPoint: (nat, string) -> nat,
    combineStage: (nat, ShaderStage) -> nat)

  /** What `introspect` accepts: a shader whose content is SPIR-V. */
  predicate IsSpirvParams(p: SParams)
  {
    p.shader.Some? && p.shader.value.contentType == Spirv
  }

  /** `KeyHasher::operator()(const SParams&)`: the shader is dereferenced, so it must be present. */
  function KeyHash(h: Hasher, p: SParams): nat
    requires p.shader.Some?
  {
    h.combineStage(h.combineEntryPoint(h.hashCode(p.shader.value.content), p.entryPoint), p.shader.value.stage)
  }

  /** `KeyHasher::operator()` on a stored introspection: the hash of its parameters. */
  function KeyHashOfData(h: Hasher, d: StageIntrospectionData): nat
    requires d.params.shader.Some?
  {
    KeyHash(h, d.params)
  }

  /** `KeyEquals(const SParams&, data)`. */
  predicate ParamsEqualsData(lhs: SParams, rhs: StageIntrospectionData)
    requires lhs.shader.Some?
  {
    ParamsEqual(lhs, rhs.params)
  }

  /** `KeyEquals(data, const SParams&)`. */
  predicate DataEqualsParams(lhs: StageIntrospectionData, rhs: SParams)
    requires lhs.params.shader.Some?
  {
    ParamsEqual(lhs.params, rhs)
  }

  /** `KeyEquals(data, data)`: forwards to the mixed overload. */
  predicate DataEqualsData(lhs: StageIntrospectionData, rhs: StageIntrospectionData)
    requires lhs.params.shader.Some?
  {
    DataEqualsParams(lhs, rhs.params)
  }

  /**
    The transparent hasher and comparator agree, as an unordered set needs:
    keys that compare equal hash equal, whichever side is the parameter
    record and whichever the stored entry, and the mixed overloads are
    mirror images of each other.
   */
  lemma HeterogeneousKeysAgree(h: Hasher, p: SParams, d: StageIntrospectionData, e: StageIntrospectionData)
    requires p.shader.Some? && d.params.shader.Some? && e.params.shader.Some?
    ensures ParamsEqualsData(p, d) ==> KeyHash(h, p) == KeyHashOfData(h, d)
    ensures ParamsEqualsData(p, d) <==> DataEqualsParams(d, p)
    ensures DataEqualsData(d, e) ==> KeyHashOfData(h, d) == KeyHashOfData(h, e)
    ensures DataEqualsData(d, e) <==> DataEqualsData(e, d)
  {
    ParamsEqualByContent(p, d.params, d.params);
    ParamsEqualByContent(d.params, e.params, e.params);
    ParamsEqualByContent(e.params, d.params, d.params);
  }

  /** Whether a stored entry answers a lookup: same hash bucket and `KeyEquals`. */
  predicate Answers(h: Hasher, p: SParams, d: StageIntrospectionData)
    requires p.shader.Some? && d.params.shader.Some?
  {
    KeyHashOfData(h, d) == KeyHash(h, p) && ParamsEqualsData(p, d)
  }

  /** Every stored entry carries a SPIR-V shader, so it can be hashed and compared. */
  predicate AllSpirv(entries: seq<StageIntrospectionData>)
  {
    forall i :: 0 <= i < |entries| ==> IsSpirvParams(entries[i].params)
  }

  /**
    `m_introspectionCache.find(params)`: the entry that answers the lookup.
    An unordered set holds at most one entry per key; of several the first is
    taken. The hash comparison never hides an equal entry.
   */
  function FindIn(h: Hasher, entries: seq<StageIntrospectionData>, p: SParams): (r: Option<nat>)
    requires p.shader.Some? && AllSpirv(entries)
    ensures r.Some? ==> r.value < |entries| && ParamsEqual(p, entries[r.value].params)
    ensures r.Some? ==> forall i :: 0 <= i < r.value ==> !ParamsEqual(p, entries[i].params)
    ensures r.None? <==> forall i :: 0 <= i < |entries| ==> !ParamsEqual(p, entries[i].params)
  {
    if entries == [] then None
    else
      var front := entries[..|entries| - 1];
      assert AllSpirv(front) by {
        forall i | 0 <= i < |front| ensures IsSpirvParams(front[i].params) {
          assert front[i] == entries[i];
        }
      }
      var last := entries[|entries| - 1];
      var found := FindIn(h, front, p);
      if found.Some? then found
      else if Answers(h, p, last) then Some(|entries| - 1)
      else
        HeterogeneousKeysAgree(h, p, last, last);
        None
  }

  /** Appending an entry equal to a missing key makes the lookup find that entry. */
  lemma FindAfterInsert(h: Hasher, entries: seq<StageIntrospectionData>, d: StageIntrospectionData, p: SParams)
    requires p.shader.Some? && AllSpirv(entries) && IsSpirvParams(d.params)
    requires FindIn(h, entries, p).None? && ParamsEqual(p, d.params)
    ensures AllSpirv(entries + [d])
    ensures FindIn(h, entries + [d], p) == Some(|entries|)
  {
    var all := entries + [d];
    assert all[..|all| - 1] == entries;
    assert all[|all| - 1] == d;
    assert AllSpirv(all) by {
      forall i | 0 <= i < |all| ensures IsSpirvParams(all[i].params) {
        if i < |entries| { assert all[i] == entries[i]; }
      }
    }
    HeterogeneousKeysAgree(h, p, d, d);
    assert Answers(h, p, d);
  }

  /** Appending an entry leaves every lookup that already succeeded unchanged. */
  lemma FindKeptByInsert(h: Hasher, entries: seq<StageIntrospectionData>, d: StageIntrospectionData, p: SParams)
    requires p.shader.Some? && AllSpirv(entries) && IsSpirvParams(d.params)
    requires FindIn(h, entries, p).Some?
    ensures AllSpirv(entries + [d])
    ensures FindIn(h, entries + [d], p) == FindIn(h, entries, p)
  {
    var all := entries + [d];
    assert all[..|all| - 1] == entries;
    assert AllSpirv(all) by {
      forall i | 0 <= i < |all| ensures IsSpirvParams(all[i].params) {
        if i < |entries| { assert all[i] == entries[i]; }
      }
    }
  }

  /**
    `KeyHasher::operator()(const smart_refctd_ptr&)`: the pointer is
    dereferenced to reach its parameters, so hashing a null pointer fails.
   */
  function KeyHashOfPointer(h: Hasher, ptr: Option<StageIntrospectionData>): Result<nat, string>
    requires ptr.Some? ==> ptr.value.params.shader.Some?
  {
    if ptr.None? then Failure("null dereference in data->getParams()") else Success(KeyHashOfData(h, ptr.value))
  }

  /**
    What the source does after a miss: with `insertToCache` the build result
    is inserted whatever it is, and inserting hashes it first, so a null
    build fails inside the insertion.
   */
  function InsertAsWritten(h: Hasher, entries: seq<StageIntrospectionData>, built: Option<StageIntrospectionData>,
                           insertToCache: bool): Result<seq<StageIntrospectionData>, string>
    requires built.Some? ==> built.value.params.shader.Some?
  {
    if !insertToCache then Success(entries)
    else
      match KeyHashOfPointer(h, built)
      case Failure(e) => Failure(e)
      case Success(_) => Success(entries + [built.value])
  }

  /**
    The written insertion differs from the corrected one only on a failed
    build with `insertToCache`: there the hashing inside the insertion
    dereferences null, before any later lookup; otherwise it appends a
    successful build, and nothing without `insertToCache`.
   */
  lemma FailedBuildInsertDereferencesNullAsWritten(h: Hasher, entries: seq<StageIntrospectionData>,
                                                   built: Option<StageIntrospectionData>, insertToCache: bool)
    requires built.Some? ==> built.value.params.shader.Some?
    ensures InsertAsWritten(h, entries, built, insertToCache).Failure? <==> insertToCache && built.None?
    ensures insertToCache && built.Some? ==> InsertAsWritten(h, entries, built, true) == Success(entries + [built.value])
    ensures !insertToCache ==> InsertAsWritten(h, entries, built, false) == Success(entries)
  {
  }

  class Introspector {
    /** The hashing primitives of the set. */
    const hasher: Hasher
    /** `doIntrospection`: a deterministic builder; `None` is a null result. */
    const build: SParams -> Option<StageData>
    /** `m_introspectionCache`, in insertion order. */
    var cache: seq<StageIntrospectionData>

    /** The cache holds SPIR-V introspections only, and at most one per key. */
    ghost predicate Valid()
      reads this
    {
      AllSpirv(cache) &&
      forall i, j :: 0 <= i < j < |cache| ==> !ParamsEqual(cache[i].params, cache[j].params)
    }

    constructor(hasher: Hasher, build: SParams -> Option<StageData>)
      ensures Valid()
      ensures this.hasher == hasher && this.build == build && cache == []
    {
      this.hasher := hasher;
      this.build := build;
      cache := [];
    }

    /**
      `introspect(params, insertToCache)`: null without a SPIR-V shader; the
      stored object on a hit, whatever `insertToCache` says; otherwise a fresh
      build, inserted only when `insertToCache` is set and the build
      succeeded.
     */
    method Introspect(params: SParams, insertToCache: bool) returns (r: Option<StageIntrospectionData>)
      requires Valid()
      modifies this`cache
      ensures Valid()
      ensures !IsSpirvParams(params) ==> r.None? && cache == old(cache)
      ensures IsSpirvParams(params) && FindIn(hasher, old(cache), params).Some? ==>
        r == Some(old(cache)[FindIn(hasher, old(cache), params).value]) && cache == old(cache)
      ensures IsSpirvParams(params) && FindIn(hasher, old(cache), params).None? && build(params).None? ==>
        r.None? && cache == old(cache)
      ensures IsSpirvParams(params) && FindIn(hasher, old(cache), params).None? && build(params).Some? ==>
        && r.Some? && fresh(r.value)
        && r.value.params == params && r.value.data == build(params).value
        && cache == old(cache) + (if insertToCache then [r.value] else [])
    {
      if params.shader.None? {
        return None;
      }
      if params.shader.value.contentType != Spirv {
        return None;
      }
      var found := FindIn(hasher, cache, params);
      if found.Some? {
        return Some(cache[found.value]);
      }
      var built := build(params);
      if built.None? {
        return None;
      }
      var introspection := new StageIntrospectionData(params, built.value);
      if insertToCache {
        forall i | 0 <= i < |cache|
          ensures !ParamsEqual(cache[i].params, params)
        {
          ParamsEqualByContent(params, cache[i].params, cache[i].params);
        }
        cache := cache + [introspection];
      }
      return Some(introspection);
    }
  }

  /**
    Cache idempotence: after a successful build was inserted, introspecting
    the same (or an equal) key again returns that same object without
    building.
   */
  lemma SecondLookupHits(h: Hasher, before: seq<StageIntrospectionData>, d: StageIntrospectionData, p: SParams, q: SParams)
    requires IsSpirvParams(p) && AllSpirv(before) && d.params == p
    requires FindIn(h, before, p).None?
    requires q.shader.Some? && ParamsEqual(q, p)
    ensures AllSpirv(before + [d])
    ensures FindIn(h, before + [d], q) == Some(|before|)
  {
    ParamsEqualByContent(q, p, p);
    forall i | 0 <= i < |before|
      ensures !ParamsEqual(q, before[i].params)
    {
      ParamsEqualByContent(q, p, before[i].params);
      ParamsEqualByContent(p, q, before[i].params);
    }
    assert FindIn(h, before, q).None?;
    FindAfterInsert(h, before, d, q);
  }
}
