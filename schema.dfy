/**
  The two metric record types of metric.go and partition.go. A `MetricData`
  is one point with its metadata; a `MetricDefinition` is the metadata of a
  series. Their methods update fields in place: `SetId` sorts `Tags` and
  assigns `Id`, `PartitionID` sorts `Tags` for the tag-aware methods, and
  `NameWithTags` memoises the canonical string and rewrites `Name` and
  `Tags` to its pieces.

  The digest (MD5), xxhash and jump hashing are library code outside this
  model and are taken as function parameters.
*/
module Schema {

  import opened Wrappers
  import opened Numbers
  import opened Strings
  import opened Sorting
  import opened Validation
  import opened Identity
  import opened Partition
  import Names

  class MetricData {
    var Id: string
    var OrgId: int
    var Name: string
    var Interval: int
    var Value: Float64
    var Unit: string
    var Time: int
    var Mtype: string
    var Tags: seq<string>

    constructor (id: string, orgId: int, name: string, interval: int, value: Float64, unit: string,
                 time: int, mtype: string, tags: seq<string>)
      ensures Id == id && OrgId == orgId && Name == name && Interval == interval && Value == value
      ensures Unit == unit && Time == time && Mtype == mtype && Tags == tags
    {
      Id, OrgId, Name, Interval, Value := id, orgId, name, interval, value;
      Unit, Time, Mtype, Tags := unit, time, mtype, tags;
    }

    /** The first failing check, or `None` when the record is acceptable. */
    method Validate() returns (err: Option<ValidationError>)
      ensures err == None <==>
        OrgId != 0 && Interval != 0 && Name != "" && KnownMtype(Mtype) && AllTagsValid(Tags)
      ensures err == ValidateRecord(OrgId, Interval, Name, Mtype, Tags)
    {
      if OrgId == 0 {
        return Some(InvalidOrgIdZero);
      }
      if Interval == 0 {
        return Some(InvalidIntervalZero);
      }
      if Name == "" {
        return Some(InvalidEmptyName);
      }
      if Mtype == "" || (Mtype != "gauge" && Mtype != "rate" && Mtype != "count"
                         && Mtype != "counter" && Mtype != "timestamp") {
        return Some(InvalidMtype);
      }
      var ok := ValidateTags(Tags);
      if !ok {
        return Some(InvalidTagFormat);
      }
      return None;
    }

    /**
      Sorts the tags in place and sets the id to `<org>.<hex md5>` of the
      pre-image over every tag.
    */
    method SetId(md5: string -> seq<uint8>)
      modifies this`Tags, this`Id
      ensures Tags == Sort(old(Tags))
      ensures Id == DataId(md5, OrgId, Name, Unit, Mtype, Interval, old(Tags))
    {
      Tags := Sort(Tags);
      var buffer := WritePreImage(Name, Unit, Mtype, Interval, Tags, false);
      Id := Decimal(OrgId) + "." + Hex(md5(buffer));
    }

    /**
      The partition of this point: by org (the four little-endian bytes of
      the org id as uint32), by name, or by name and tags (which sorts the
      tags in place); an unknown method is an error.
    */
    method PartitionID(selector: PartitionByMethod, partitions: int32,
                       xxhash: string -> bv64, jump: (bv64, int) -> int32)
      returns (r: Result<int32, PartitionError>)
      requires ReducesByModulo(selector) ==> partitions != 0
      modifies this`Tags
      ensures Tags == if HashesTags(selector) then Sort(old(Tags)) else old(Tags)
      ensures r == PartitionOf(selector, partitions, ToUint32(OrgId), Name, SeriesKey(Name, old(Tags)), xxhash, jump)
    {
      if selector == PartitionByOrg {
        var partition := Reduce(Fnv.Sum32(LittleEndian32(ToUint32(OrgId))), partitions);
        r := Ok(partition);
      } else if selector == PartitionBySeries {
        var partition := Reduce(Fnv.Sum32(Name), partitions);
        r := Ok(partition);
      } else if selector == PartitionBySeriesWithTags {
        Tags := Sort(Tags);
        var key := WriteSeriesKey(Name, Tags);
        r := Ok(jump(xxhash(key), partitions as int));
      } else if selector == PartitionBySeriesWithTagsFnv {
        Tags := Sort(Tags);
        var h := HashSeriesKey(Name, Tags);
        var partition := Reduce(h, partitions);
        r := Ok(partition);
      } else {
        r := Err(UnknownPartitionMethod);
      }
    }
  }

  class MetricDefinition {
    var Id: MKey
    var OrgId: uint32
    var Name: string
    var Interval: int
    var Unit: string
    var Mtype: string
    var Tags: seq<string>
    var LastUpdate: int
    var Partition: int32
    /** The memoised canonical string; empty until `NameWithTags` builds it. */
    var nameWithTags: string

    /**
      `MetricDefinitionFromMetricData`: copies the metadata of a point, with
      the org id cut to uint32 and the key parsed from the point's id by
      `parseMKey` (whose failure the source ignores, keeping the zero key).
    */
    constructor FromMetricData(d: MetricData, parseMKey: string -> MKey)
      ensures Id == parseMKey(d.Id) && OrgId == ToUint32(d.OrgId) && Name == d.Name
      ensures Interval == d.Interval && Unit == d.Unit && Mtype == d.Mtype && Tags == d.Tags
      ensures LastUpdate == d.Time && Partition == 0 && nameWithTags == ""
    {
      Id := parseMKey(d.Id);
      OrgId := ToUint32(d.OrgId);
      Name := d.Name;
      Interval := d.Interval;
      Unit := d.Unit;
      Mtype := d.Mtype;
      Tags := d.Tags;
      LastUpdate := d.Time;
      Partition := 0;
      nameWithTags := "";
    }

    /** A copy with every field equal, the memoised string included. */
    method Clone() returns (c: MetricDefinition)
      ensures fresh(c)
      ensures c.Id == Id && c.OrgId == OrgId && c.Name == Name && c.Interval == Interval
      ensures c.Unit == Unit && c.Mtype == Mtype && c.Tags == Tags
      ensures c.LastUpdate == LastUpdate && c.Partition == Partition && c.nameWithTags == nameWithTags
    {
      c := new MetricDefinition.FromFields(Id, OrgId, Name, Interval, Unit, Mtype, Tags,
                                           LastUpdate, Partition, nameWithTags);
    }

    /** A definition given field by field. */
    constructor FromFields(id: MKey, orgId: uint32, name: string, interval: int, unit: string, mtype: string,
                           tags: seq<string>, lastUpdate: int, partition: int32, memo: string)
      ensures Id == id && OrgId == orgId && Name == name && Interval == interval
      ensures Unit == unit && Mtype == mtype && Tags == tags
      ensures LastUpdate == lastUpdate && Partition == partition && nameWithTags == memo
    {
      Id, OrgId, Name, Interval, Unit := id, orgId, name, interval, unit;
      Mtype, Tags, LastUpdate, Partition, nameWithTags := mtype, tags, lastUpdate, partition, memo;
    }

    /**
      Returns the canonical string, building it on the first call: the tags
      are sorted, the string is memoised, `Name` keeps its content and
      `Tags` becomes the sorted tags without name aliases. Once a non-empty
      string is memoised, later calls return it and change nothing.
    */
    method NameWithTags() returns (r: string)
      modifies this`Name, this`Tags, this`nameWithTags
      ensures old(nameWithTags) != "" ==>
        r == nameWithTags == old(nameWithTags) && Name == old(Name) && Tags == old(Tags)
      ensures old(nameWithTags) == "" ==>
        r == nameWithTags == CanonicalNameWithTags(old(Name), old(Tags))
        && Name == old(Name) && Tags == NameTags(old(Tags))
    {
      if |nameWithTags| > 0 {
        return nameWithTags;
      }
      var sorted, memo := WriteSortedTagString(Name, Tags);
      var tags := PointIntoCanonical(Name, sorted, memo, |Name|);
      nameWithTags, Name, Tags := memo, memo[..|Name|], tags;
      return nameWithTags;
    }

    /** The name with its leading run of `~` removed. */
    method NameSanitizedAsTagValue() returns (r: string)
      ensures |r| <= |Name| && r == Name[|Name| - |r|..]
      ensures forall i | 0 <= i < |Name| - |r| :: Name[i] == '~'
      ensures r == [] || r[0] != '~'
      ensures Name == [] || Name[0] != '~' ==> r == Name
    {
      r := Names.SanitizeNameAsTagValue(Name);
    }

    /**
      Sorts the tags in place and sets the key to the digest of the
      pre-image over the non-alias tags, with the org.
    */
    method SetId(md5: string -> seq<uint8>)
      modifies this`Tags, this`Id
      ensures Tags == Sort(old(Tags))
      ensures Id == DefinitionKey(md5, OrgId, Name, Unit, Mtype, Interval, old(Tags))
    {
      Tags := Sort(Tags);
      var buffer := WritePreImage(Name, Unit, Mtype, Interval, Tags, true);
      Id := MKey(md5(buffer), OrgId);
    }

    /** The first failing check, or `None` when the definition is acceptable. */
    method Validate() returns (err: Option<ValidationError>)
      ensures err == None <==>
        OrgId != 0 && Interval != 0 && Name != "" && KnownMtype(Mtype) && AllTagsValid(Tags)
      ensures err == ValidateRecord(OrgId, Interval, Name, Mtype, Tags)
    {
      if OrgId == 0 {
        return Some(InvalidOrgIdZero);
      }
      if Interval == 0 {
        return Some(InvalidIntervalZero);
      }
      if Name == "" {
        return Some(InvalidEmptyName);
      }
      if Mtype == "" || (Mtype != "gauge" && Mtype != "rate" && Mtype != "count"
                         && Mtype != "counter" && Mtype != "timestamp") {
        return Some(InvalidMtype);
      }
      var ok := ValidateTags(Tags);
      if !ok {
        return Some(InvalidTagFormat);
      }
      return None;
    }

    /**
      As `MetricData.PartitionID`, except that the tag-aware methods hash a
      memoised canonical string when there is one, and only otherwise
      rebuild the key (sorting the tags in place).
    */
    method PartitionID(selector: PartitionByMethod, partitions: int32,
                       xxhash: string -> bv64, jump: (bv64, int) -> int32)
      returns (r: Result<int32, PartitionError>)
      requires ReducesByModulo(selector) ==> partitions != 0
      modifies this`Tags
      ensures Tags == if HashesTags(selector) && nameWithTags == "" then Sort(old(Tags)) else old(Tags)
      ensures r == PartitionOf(selector, partitions, OrgId, Name,
                               if nameWithTags != "" then nameWithTags else SeriesKey(Name, old(Tags)),
                               xxhash, jump)
    {
      if selector == PartitionByOrg {
        var partition := Reduce(Fnv.Sum32(LittleEndian32(OrgId)), partitions);
        r := Ok(partition);
      } else if selector == PartitionBySeries {
        var partition := Reduce(Fnv.Sum32(Name), partitions);
        r := Ok(partition);
      } else if selector == PartitionBySeriesWithTags {
        var key;
        if |nameWithTags| > 0 {
          key := nameWithTags;
        } else {
          Tags := Sort(Tags);
          key := WriteSeriesKey(Name, Tags);
        }
        r := Ok(jump(xxhash(key), partitions as int));
      } else if selector == PartitionBySeriesWithTagsFnv {
        var h;
        if |nameWithTags| > 0 {
          h := Fnv.Sum32(nameWithTags);
        } else {
          Tags := Sort(Tags);
          h := HashSeriesKey(Name, Tags);
        }
        var partition := Reduce(h, partitions);
        r := Ok(partition);
      } else {
        r := Err(UnknownPartitionMethod);
      }
    }
  }

  /**
    `NameWithTags` is idempotent: a second call returns the string the first
    one did and leaves `Name` and `Tags` as the first call left them. (When
    the canonical string is empty nothing is memoised and the second call
    rebuilds it, from tags that are already canonical.)
  */
  method NameWithTagsTwice(m: MetricDefinition) returns (first: string, second: string)
    modifies m
    ensures first == second == m.nameWithTags
    ensures m.Name == old(m.Name)
    ensures old(m.nameWithTags) == "" ==> m.Tags == NameTags(old(m.Tags))
    ensures old(m.nameWithTags) != "" ==> m.Tags == old(m.Tags)
  {
    ghost var tags0 := m.Tags;
    first := m.NameWithTags();
    second := m.NameWithTags();
    if first == "" {
      CanonicalSettles(m.Name, tags0);
      NameTagsIdempotent(tags0);
    }
  }

  /**
    The rewriting loop of `NameWithTags`: walks the sorted tags with a
    cursor into the canonical string `memo`, skips name aliases, and stores
    each kept tag's piece of `memo` in the next free slot; the slice is then
    cut to the slots written. The result is exactly the kept tags.
  */
  method PointIntoCanonical(ghost name: string, sorted: seq<string>, memo: string, nameLen: int)
    returns (tags: seq<string>)
    requires nameLen == |name|
    requires memo == TagString(';', name, sorted, KeptInName)
    ensures tags == Filter(sorted, KeptInName)
  {
    var cursor, i, j := nameLen, 0, 0;
    tags := sorted;
    RewriteStart(name, sorted);
    while j < |tags|
      invariant Rewrite(name, sorted, tags, i, j, cursor)
      decreases |sorted| - j
    {
      tags, i, cursor := PointIntoCanonicalStep(name, sorted, memo, tags, i, j, cursor);
      j := j + 1;
    }
    RewriteDone(name, sorted, tags, i, j, cursor);
    if i < |tags| {
      tags := tags[..i];
    }
  }

  /**
    One turn of the rewriting loop at tag `j`: a name alias is skipped, any
    other tag is replaced, in slot `i`, by its piece of `memo` after the
    cursor.
  */
  method PointIntoCanonicalStep(ghost name: string, sorted: seq<string>, memo: string,
                                tags: seq<string>, i: int, j: int, cursor: int)
    returns (tags': seq<string>, i': int, cursor': int)
    requires memo == TagString(';', name, sorted, KeptInName)
    requires Rewrite(name, sorted, tags, i, j, cursor) && j < |tags|
    ensures Rewrite(name, sorted, tags', i', j + 1, cursor')
  {
    var t := tags[j];
    if IsNameAlias(t) {
      RewriteSkip(name, sorted, tags, i, j, cursor);
      tags', i', cursor' := tags, i, cursor;
    } else {
      RewriteTake(name, sorted, tags, i, j, cursor, memo);
      tags' := tags[i := memo[cursor + 1..cursor + 1 + |t|]];
      cursor' := cursor + |t| + 1;
      i' := i + 1;
    }
  }

  /**
    The state of `NameWithTags`' rewriting loop after `j` of the sorted tags:
    the first `i` slots hold the kept ones among them, the slots from `i`
    on are not yet overwritten, and `cursor` is the length of the canonical
    string written for the first `j` tags.
  */
  predicate Rewrite(name: string, sorted: seq<string>, tags: seq<string>, i: int, j: int, cursor: int)
  {
    && 0 <= i <= j <= |sorted| == |tags|
    && i == |Filter(sorted[..j], KeptInName)|
    && tags == Filter(sorted[..j], KeptInName) + sorted[i..]
    && cursor == |TagString(';', name, sorted[..j], KeptInName)|
  }

  lemma RewriteStart(name: string, sorted: seq<string>)
    ensures Rewrite(name, sorted, sorted, 0, 0, |name|)
  {
    assert sorted[..0] == [];
    assert TagString(';', name, [], KeptInName) == name;
  }

  /** The slot the loop reads has not been overwritten yet. */
  lemma RewriteReads(name: string, sorted: seq<string>, tags: seq<string>, i: int, j: int, cursor: int)
    requires Rewrite(name, sorted, tags, i, j, cursor) && j < |tags|
    ensures |tags| == |sorted| && tags[j] == sorted[j]
  {
    var f := Filter(sorted[..j], KeptInName);
    assert tags[j] == sorted[i..][j - i];
  }

  /** Skipping a name alias advances only `j`. */
  lemma RewriteSkip(name: string, sorted: seq<string>, tags: seq<string>, i: int, j: int, cursor: int)
    requires Rewrite(name, sorted, tags, i, j, cursor) && j < |tags|
    requires IsNameAlias(tags[j])
    ensures Rewrite(name, sorted, tags, i, j + 1, cursor)
  {
    RewriteReads(name, sorted, tags, i, j, cursor);
    var t := sorted[j];
    TagStringSnoc(';', name, sorted, j, KeptInName);
    assert sorted[..j + 1] == sorted[..j] + [t];
    FilterSnoc(sorted[..j], t, KeptInName);
  }

  /**
    A kept tag is found in the canonical string right after the cursor and
    its `;`; storing that piece in slot `i` advances all three counters.
  */
  lemma RewriteTake(name: string, sorted: seq<string>, tags: seq<string>, i: int, j: int, cursor: int, w: string)
    requires Rewrite(name, sorted, tags, i, j, cursor) && j < |tags|
    requires !IsNameAlias(tags[j])
    requires w == TagString(';', name, sorted, KeptInName)
    ensures i < |tags| && cursor + 1 + |tags[j]| <= |w|
    ensures Rewrite(name, sorted, tags[i := w[cursor + 1..cursor + 1 + |tags[j]|]], i + 1, j + 1,
                    cursor + |tags[j]| + 1)
  {
    RewriteReads(name, sorted, tags, i, j, cursor);
    var t, f := sorted[j], Filter(sorted[..j], KeptInName);
    assert cursor + 1 + |t| <= |w| && w[cursor + 1..cursor + 1 + |t|] == t by {
      TagStringSlice(';', name, sorted, j, KeptInName);
    }
    assert |TagString(';', name, sorted[..j + 1], KeptInName)| == cursor + |t| + 1 by {
      TagStringSnoc(';', name, sorted, j, KeptInName);
    }
    assert Filter(sorted[..j + 1], KeptInName) == f + [t] by {
      assert sorted[..j + 1] == sorted[..j] + [t];
      FilterSnoc(sorted[..j], t, KeptInName);
    }
    assert tags[i := t] == (f + [t]) + sorted[i + 1..] by {
      SlotAdvances(f, sorted, t);
    }
  }

  /** Overwriting the first unwritten slot moves the boundary by one. */
  lemma SlotAdvances(f: seq<string>, s: seq<string>, t: string)
    requires |f| < |s|
    ensures (f + s[|f|..])[|f| := t] == (f + [t]) + s[|f| + 1..]
  {
    assert s[|f|..] == [s[|f|]] + s[|f| + 1..];
  }

  /** At the end the first `i` slots hold exactly the kept tags. */
  lemma RewriteDone(name: string, sorted: seq<string>, tags: seq<string>, i: int, j: int, cursor: int)
    requires Rewrite(name, sorted, tags, i, j, cursor) && j >= |tags|
    ensures i <= |tags| && tags[..i] == Filter(sorted, KeptInName)
    ensures i == |tags| ==> tags == Filter(sorted, KeptInName)
  {
    assert sorted[..|sorted|] == sorted;
  }
}
