/** The pools of a running machine: interning scans from the front and appends in place. */
module InternPools {
  import opened Word
  import opened Isa
  import opened GcHeap
  import opened Interning

  class PoolStore {
    var options: seq<OptionValue>
    var results: seq<ResultValue>
    var enums: seq<EnumValue>

    constructor ()
      ensures Pools() == GcHeap.Pools([], [], [])
    {
      options, results, enums := [], [], [];
    }

    function Pools(): Pools
      reads this
    {
      GcHeap.Pools(options, results, enums)
    }

    /** `intern_option`. */
    method InternOption(hasValue: bool, payload: Value) returns (handle: Word)
      modifies `options
      ensures (Pools(), Value(OptionHandle, handle)) == Interning.InternOption(old(Pools()), hasValue, payload)
      ensures old(options) <= options
      ensures NoDuplicates(old(Pools())) ==> NoDuplicates(Pools())
    {
      ghost var x := OptionValue(hasValue, payload);
      InternKeepsDistinctIf(options, x, SameOption);
      var i := 0;
      while i < |options|
        invariant 0 <= i <= |options|
        invariant First(options, x, SameOption, 0) == First(options, x, SameOption, i)
      {
        if options[i].hasValue == hasValue {
          if !hasValue || options[i].payload == payload {
            return Wrap(i + 1);
          }
        }
        i := i + 1;
      }
      options := options + [OptionValue(hasValue, payload)];
      handle := Wrap(|options|);
    }

    /** `intern_result`. */
    method InternResult(isOk: bool, payload: Value) returns (handle: Word)
      modifies `results
      ensures (Pools(), Value(ResultHandle, handle)) == Interning.InternResult(old(Pools()), isOk, payload)
      ensures old(results) <= results
      ensures NoDuplicates(old(Pools())) ==> NoDuplicates(Pools())
    {
      ghost var x := ResultValue(isOk, payload);
      InternKeepsDistinctIf(results, x, SameResult);
      var i := 0;
      while i < |results|
        invariant 0 <= i <= |results|
        invariant First(results, x, SameResult, 0) == First(results, x, SameResult, i)
      {
        if results[i].isOk == isOk && results[i].payload == payload {
          return Wrap(i + 1);
        }
        i := i + 1;
      }
      results := results + [ResultValue(isOk, payload)];
      handle := Wrap(|results|);
    }

    /** `intern_enum`. */
    method InternEnum(variant: Int32, hasPayload: bool, payload: Value) returns (handle: Word)
      modifies `enums
      ensures (Pools(), Value(EnumHandle, handle)) == Interning.InternEnum(old(Pools()), variant, hasPayload, payload)
      ensures old(enums) <= enums
      ensures NoDuplicates(old(Pools())) ==> NoDuplicates(Pools())
    {
      hide DecodeEnumId;
      if variant < 0 {
        return 0;
      }
      var enumId := DecodeEnumId(variant);
      ghost var x := EnumValue(variant, hasPayload, payload, enumId);
      InternKeepsDistinctIf(enums, x, SameEnum);
      var i := 0;
      while i < |enums|
        invariant 0 <= i <= |enums|
        invariant First(enums, x, SameEnum, 0) == First(enums, x, SameEnum, i)
      {
        if enums[i].variant == variant && enums[i].enumId == enumId && enums[i].hasPayload == hasPayload {
          if !hasPayload || enums[i].payload == payload {
            return Wrap(i + 1);
          }
        }
        i := i + 1;
      }
      enums := enums + [EnumValue(variant, hasPayload, payload, enumId)];
      handle := Wrap(|enums|);
    }
  }

  lemma InternKeepsDistinctIf<T>(pool: seq<T>, x: T, same: Same<T>)
    ensures Distinct(pool, same) ==> Distinct(Intern(pool, x, same).0, same)
  {
    if Distinct(pool, same) {
      InternKeepsDistinct(pool, x, same);
    }
  }
}
