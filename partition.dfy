/**
  Partition selection (partition.go): which of `partitions` shards a metric
  is routed to, by one of four methods. The 32-bit methods hash with FNV-1a
  and reduce the hash with Go's truncating `%` followed by a sign fix; the
  tag-aware 64-bit method hashes with xxhash and picks the shard with jump
  consistent hashing. xxhash and jump hashing are library code outside this
  model and are taken as function parameters.
*/
module Partition {

  import opened Wrappers
  import opened Numbers
  import opened Strings
  import opened Sorting
  import opened Validation
  import opened Identity
  import Fnv

  type PartitionByMethod = uint8

  const PartitionByOrg: PartitionByMethod := 0
  const PartitionBySeries: PartitionByMethod := 1
  const PartitionBySeriesWithTags: PartitionByMethod := 2
  const PartitionBySeriesWithTagsFnv: PartitionByMethod := 3

  datatype PartitionError = UnknownPartitionMethod

  /** The methods whose reduction divides by the partition count. */
  predicate ReducesByModulo(selector: PartitionByMethod)
  {
    selector == PartitionByOrg || selector == PartitionBySeries || selector == PartitionBySeriesWithTagsFnv
  }

  /** The methods that hash the name together with the tags. */
  predicate HashesTags(selector: PartitionByMethod)
  {
    selector == PartitionBySeriesWithTags || selector == PartitionBySeriesWithTagsFnv
  }

  /** The range jump hashing promises: a bucket in `[0, n)` for any `n > 0`. */
  ghost predicate JumpInRange(jump: (bv64, int) -> int32)
  {
    forall key: bv64, n: int | n > 0 :: 0 <= jump(key, n) < n
  }

  /**
    The shard a 32-bit hash is meant to select: the magnitude of the hash,
    read as a signed 32-bit integer, modulo the magnitude of the count.
  */
  function Reduced(h: bv32, partitions: int32): (r: int32)
    requires partitions != 0
    ensures 0 <= r < Abs(partitions)
  {
    Abs(Int32FromBits(h)) % Abs(partitions)
  }

  /**
    `int32(h) % partitions`, negated when negative: Go's `%` truncates
    toward zero, so the remainder takes the sign of the hash.
  */
  method Reduce(h: bv32, partitions: int32) returns (partition: int32)
    requires partitions != 0
    ensures partition == Reduced(h, partitions)
  {
    var signed := Int32FromBits(h);
    var rem := TruncRem(signed, partitions);
    assert Abs(rem) == Abs(signed) % Abs(partitions) && Abs(rem) < Abs(partitions);
    partition := rem;
    if partition < 0 {
      partition := -partition;
    }
  }

  /** The partition key skips tags of five or more bytes that start with `name=`. */
  predicate KeptInPartitionKey(t: string)
  {
    !(|t| >= 5 && t[..5] == "name=")
  }

  /** The bytes the tag-aware methods hash when nothing is memoised. */
  function SeriesKey(name: string, tags: seq<string>): string
  {
    TagString(';', name, Sort(tags), KeptInPartitionKey)
  }

  /**
    The hashing loop of the tag-aware methods: the name, then `;` and each
    tag (already sorted by the caller) that the key keeps.
  */
  method WriteSeriesKey(name: string, sorted: seq<string>) returns (written: string)
    ensures written == TagString(';', name, sorted, KeptInPartitionKey)
  {
    written := name;
    assert sorted[..0] == [];
    var i := 0;
    while i < |sorted|
      invariant 0 <= i <= |sorted|
      invariant written == TagString(';', name, sorted[..i], KeptInPartitionKey)
    {
      TagStringSnoc(';', name, sorted, i, KeptInPartitionKey);
      var t := sorted[i];
      if !(|t| >= 5 && t[..5] == "name=") {
        written := written + [';'] + t;
      }
      i := i + 1;
    }
    assert sorted[..|sorted|] == sorted;
  }

  /** What hashing one more tag of the series key does to the FNV state. */
  lemma HashSeriesKeyStep(name: string, sorted: seq<string>, i: int)
    requires 0 <= i < |sorted|
    ensures var h, t := Fnv.Sum32(TagString(';', name, sorted[..i], KeptInPartitionKey)), sorted[i];
      Fnv.Sum32(TagString(';', name, sorted[..i + 1], KeptInPartitionKey))
        == if KeptInPartitionKey(t) then Fnv.Absorb(Fnv.Absorb(h, [';']), t) else h
  {
    TagStringSnoc(';', name, sorted, i, KeptInPartitionKey);
    var written, t := TagString(';', name, sorted[..i], KeptInPartitionKey), sorted[i];
    if KeptInPartitionKey(t) {
      assert TagString(';', name, sorted[..i + 1], KeptInPartitionKey) == written + ([';'] + t);
      Fnv.AbsorbConcat(Fnv.OffsetBasis, written, [';'] + t);
      Fnv.AbsorbConcat(Fnv.Sum32(written), [';'], t);
      assert Fnv.Sum32(written + ([';'] + t)) == Fnv.Absorb(Fnv.Absorb(Fnv.Sum32(written), [';']), t);
    } else {
      assert TagString(';', name, sorted[..i + 1], KeptInPartitionKey) == written;
    }
  }

  /**
    The FNV variant of the same loop: the name, then `;` and each kept tag,
    written one after another to a 32-bit FNV-1a hasher.
  */
  method HashSeriesKey(name: string, sorted: seq<string>) returns (h: bv32)
    ensures h == Fnv.Sum32(TagString(';', name, sorted, KeptInPartitionKey))
  {
    h := Fnv.Absorb(Fnv.OffsetBasis, name);
    assert sorted[..0] == [];
    assert TagString(';', name, [], KeptInPartitionKey) == name;
    var i := 0;
    while i < |sorted|
      invariant 0 <= i <= |sorted|
      invariant h == Fnv.Sum32(TagString(';', name, sorted[..i], KeptInPartitionKey))
    {
      HashSeriesKeyStep(name, sorted, i);
      var t := sorted[i];
      if !(|t| >= 5 && t[..5] == "name=") {
        h := Fnv.Absorb(h, [';']);
        h := Fnv.Absorb(h, t);
      }
      i := i + 1;
    }
    assert sorted[..|sorted|] == sorted;
  }

  /**
    The partition the four methods select, given the org id (as uint32), the
    name and the tag-aware key; any other method is an error.
  */
  function PartitionOf(selector: PartitionByMethod, partitions: int32, orgId: uint32, name: string,
                       seriesKey: string, xxhash: string -> bv64, jump: (bv64, int) -> int32)
    : (r: Result<int32, PartitionError>)
    requires ReducesByModulo(selector) ==> partitions != 0
    ensures r.Err? ==> r.error == UnknownPartitionMethod
    ensures r.Ok? && ReducesByModulo(selector) ==> 0 <= r.value < Abs(partitions)
  {
    if selector == PartitionByOrg then Ok(Reduced(Fnv.Sum32(LittleEndian32(orgId)), partitions))
    else if selector == PartitionBySeries then Ok(Reduced(Fnv.Sum32(name), partitions))
    else if selector == PartitionBySeriesWithTags then Ok(jump(xxhash(seriesKey), partitions as int))
    else if selector == PartitionBySeriesWithTagsFnv then Ok(Reduced(Fnv.Sum32(seriesKey), partitions))
    else Err(UnknownPartitionMethod)
  }

  /** Only the four known methods succeed. */
  lemma PartitionOfFailsExactlyOnUnknownMethod(selector: PartitionByMethod, partitions: int32, orgId: uint32,
                                               name: string, seriesKey: string,
                                               xxhash: string -> bv64, jump: (bv64, int) -> int32)
    requires ReducesByModulo(selector) ==> partitions != 0
    ensures PartitionOf(selector, partitions, orgId, name, seriesKey, xxhash, jump).Err? <==> selector > 3
    ensures selector > 3 ==>
      PartitionOf(selector, partitions, orgId, name, seriesKey, xxhash, jump) == Err(UnknownPartitionMethod)
  {
  }

  /**
    Every successful result is a valid shard: in `[0, |partitions|)` for the
    modulo methods, and in `[0, partitions)` for jump hashing when the count
    is positive.
  */
  lemma PartitionOfInRange(selector: PartitionByMethod, partitions: int32, orgId: uint32,
                           name: string, seriesKey: string,
                           xxhash: string -> bv64, jump: (bv64, int) -> int32)
    requires ReducesByModulo(selector) ==> partitions != 0
    requires JumpInRange(jump)
    ensures var r := PartitionOf(selector, partitions, orgId, name, seriesKey, xxhash, jump);
      r.Ok? && (ReducesByModulo(selector) || partitions > 0) ==> 0 <= r.value < Abs(partitions)
  {
    if selector == PartitionBySeriesWithTags && partitions > 0 {
      var key, n := xxhash(seriesKey), partitions as int;
      assert n > 0;
      assert 0 <= jump(key, n) < n;
    }
  }

  /** By org, the shard depends on the org id alone. */
  lemma ByOrgReadsOnlyOrg(partitions: int32, orgId: uint32, name1: string, key1: string, name2: string, key2: string,
                          xxhash: string -> bv64, jump: (bv64, int) -> int32)
    requires partitions != 0
    ensures PartitionOf(PartitionByOrg, partitions, orgId, name1, key1, xxhash, jump)
         == PartitionOf(PartitionByOrg, partitions, orgId, name2, key2, xxhash, jump)
  {
  }

  /** By series, the shard depends on the name alone. */
  lemma BySeriesReadsOnlyName(partitions: int32, orgId1: uint32, key1: string, orgId2: uint32, key2: string,
                              name: string, xxhash: string -> bv64, jump: (bv64, int) -> int32)
    requires partitions != 0
    ensures PartitionOf(PartitionBySeries, partitions, orgId1, name, key1, xxhash, jump)
         == PartitionOf(PartitionBySeries, partitions, orgId2, name, key2, xxhash, jump)
  {
  }

  /** The tag-aware key does not depend on the order of the tags. */
  lemma SeriesKeyIgnoresOrder(name: string, a: seq<string>, b: seq<string>)
    requires multiset(a) == multiset(b)
    ensures SeriesKey(name, a) == SeriesKey(name, b)
  {
    SortIgnoresOrder(a, b);
  }

  /**
    The two alias rules differ only on the tag `name=` itself, so without
    that tag the partition key is the canonical name-with-tags string.
  */
  lemma SeriesKeyIsCanonical(name: string, tags: seq<string>)
    requires forall i | 0 <= i < |tags| :: tags[i] != "name="
    ensures SeriesKey(name, tags) == CanonicalNameWithTags(name, tags)
  {
    var sorted := Sort(tags);
    forall i | 0 <= i < |sorted| ensures KeptInPartitionKey(sorted[i]) == KeptInName(sorted[i]) {
      assert sorted[i] in multiset(tags);
    }
    FilterCongruent(sorted, KeptInPartitionKey, KeptInName);
  }

  /**
    A `MetricDefinition` with a memoised canonical string is partitioned as
    one without, whenever no tag is exactly `name=`.
  */
  lemma MemoisedKeyAgrees(selector: PartitionByMethod, partitions: int32, orgId: uint32, name: string,
                          tags: seq<string>, xxhash: string -> bv64, jump: (bv64, int) -> int32)
    requires ReducesByModulo(selector) ==> partitions != 0
    requires forall i | 0 <= i < |tags| :: tags[i] != "name="
    ensures PartitionOf(selector, partitions, orgId, name, CanonicalNameWithTags(name, tags), xxhash, jump)
         == PartitionOf(selector, partitions, orgId, name, SeriesKey(name, tags), xxhash, jump)
  {
    SeriesKeyIsCanonical(name, tags);
  }

  /**
    Hashing the tags `NameWithTags` leaves behind gives the same key as
    hashing the original tags: the aliases it drops are dropped by the key
    anyway.
  */
  lemma RewriteKeepsSeriesKey(name: string, tags: seq<string>)
    ensures SeriesKey(name, NameTags(tags)) == SeriesKey(name, tags)
  {
    var sorted := Sort(tags);
    NameTagsMeans(tags);
    SortOfSorted(NameTags(tags));
    FilterFilter(sorted, KeptInName, KeptInPartitionKey);
  }

  /** The tag `name=` is not valid (its value is empty). */
  lemma EmptyNameTagInvalid()
    ensures !ValidateTag("name=")
  {
    assert "name=" == "name" + "=" + "";
    TagFromKeyValue("name", "");
  }

  /** For validated tags the partition key and the canonical string coincide. */
  lemma ValidTagsKeyIsCanonical(name: string, tags: seq<string>)
    requires AllTagsValid(tags)
    ensures SeriesKey(name, tags) == CanonicalNameWithTags(name, tags)
  {
    EmptyNameTagInvalid();
    SeriesKeyIsCanonical(name, tags);
  }

  /** Where the two rules part: a bare `name=` tag is in the canonical string but not in the key. */
  lemma NameTagSplitsTheRules()
    ensures SeriesKey("a", ["name="]) == "a"
    ensures CanonicalNameWithTags("a", ["name="]) == "a;name="
  {
    assert Sort(["name="]) == ["name="];
    assert Filter(["name="], KeptInPartitionKey) == [];
    assert Filter(["name="], KeptInName) == ["name="];
    assert Prefixed(';', ["name="]) == ";name=" by {
      assert ["name="][..0] == [];
    }
  }
}
