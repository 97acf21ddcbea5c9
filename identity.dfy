/**
  The identity of a metric (metric.go): the canonical "name with tags"
  string, and the byte string whose MD5 digest is a record's id.

  Both are built from the tags sorted byte-wise. The canonical string and the
  id of a `MetricDefinition` leave out "name alias" tags: tags longer than
  five bytes that start with `name=`. The id of a `MetricData` keeps every
  tag.
*/
module Identity {

  import opened Numbers
  import opened Strings
  import opened Sorting
  import opened Validation

  /** A `name=<something>` tag, which a consumer may add to query by name. */
  predicate IsNameAlias(t: string)
  {
    |t| > 5 && t[..5] == "name="
  }

  predicate KeptInName(t: string)
  {
    !IsNameAlias(t)
  }

  /** The tags that appear in the canonical string, in their written order. */
  function NameTags(tags: seq<string>): seq<string>
  {
    Filter(Sort(tags), KeptInName)
  }

  /**
    The canonical tags are sorted, and hold each non-alias tag as often as
    the input does and no alias tag at all.
  */
  lemma NameTagsMeans(tags: seq<string>)
    ensures Sorted(NameTags(tags))
    ensures forall t :: multiset(NameTags(tags))[t] == if IsNameAlias(t) then 0 else multiset(tags)[t]
  {
    FilterSorted(Sort(tags), KeptInName);
    forall t ensures multiset(NameTags(tags))[t] == if IsNameAlias(t) then 0 else multiset(tags)[t] {
      FilterMultiset(Sort(tags), KeptInName, t);
    }
  }

  /** Sorting then dropping aliases is dropping aliases then sorting. */
  lemma NameTagsIsSortOfFilter(tags: seq<string>)
    ensures NameTags(tags) == Sort(Filter(tags, KeptInName))
  {
    NameTagsMeans(tags);
    var f := Filter(tags, KeptInName);
    forall t ensures multiset(NameTags(tags))[t] == multiset(Sort(f))[t] {
      FilterMultiset(tags, KeptInName, t);
    }
    assert multiset(NameTags(tags)) == multiset(Sort(f));
    SortedUnique(NameTags(tags), Sort(f));
  }

  /** Reordering the tags does not change the canonical tags. */
  lemma NameTagsIgnoreOrder(a: seq<string>, b: seq<string>)
    requires multiset(a) == multiset(b)
    ensures NameTags(a) == NameTags(b)
  {
    SortIgnoresOrder(a, b);
  }

  /** Adding a name alias does not change the canonical tags. */
  lemma NameTagsIgnoreAlias(tags: seq<string>, alias: string)
    requires IsNameAlias(alias)
    ensures NameTags(tags + [alias]) == NameTags(tags)
  {
    NameTagsIsSortOfFilter(tags + [alias]);
    NameTagsIsSortOfFilter(tags);
    FilterAppend(tags, [alias], KeptInName);
    assert Filter([alias], KeptInName) == [];
    assert Filter(tags, KeptInName) + [] == Filter(tags, KeptInName);
  }

  /** The canonical tags are already canonical. */
  lemma NameTagsIdempotent(tags: seq<string>)
    ensures NameTags(NameTags(tags)) == NameTags(tags)
  {
    NameTagsMeans(tags);
    SortOfSorted(NameTags(tags));
    FilterIdempotent(Sort(tags), KeptInName);
  }

  /** `name;tag1;tag2…`: the name, then each canonical tag after a `;`. */
  function CanonicalNameWithTags(name: string, tags: seq<string>): string
  {
    name + Prefixed(';', NameTags(tags))
  }

  /** Building the canonical string from canonical tags gives the same string. */
  lemma CanonicalSettles(name: string, tags: seq<string>)
    ensures CanonicalNameWithTags(name, NameTags(tags)) == CanonicalNameWithTags(name, tags)
  {
    NameTagsIdempotent(tags);
  }

  /** A valid tag has no `;`, so it stays one piece of the canonical string. */
  lemma ValidTagHasNoSemicolon(t: string)
    requires ValidateTag(t)
    ensures ';' !in t
  {
    ValidateTagMeans(t);
    var k :| SplitsAt(t, k);
    forall i | 0 <= i < |t| ensures t[i] != ';' {
      if i < k {
        assert AllowedInKey(t[i]);
      }
    }
  }

  /**
    The canonical string of a `;`-free name and valid tags splits at `;`
    back into the name and the canonical tags.
  */
  lemma CanonicalSplits(name: string, tags: seq<string>)
    requires ';' !in name
    requires AllTagsValid(tags)
    ensures Split(CanonicalNameWithTags(name, tags), ';') == [name] + NameTags(tags)
  {
    var nt := NameTags(tags);
    var parts := [name] + nt;
    NameTagsMeans(tags);
    forall i | 0 <= i < |parts| ensures ';' !in parts[i] {
      if i > 0 {
        assert multiset(nt)[parts[i]] > 0;
        ValidTagHasNoSemicolon(parts[i]);
      }
    }
    assert parts[0] == name && parts[1..] == nt;
    SplitJoin(parts, ';');
  }

  /**
    On valid input, the canonical string identifies the series: equal strings
    mean the same name and the same tags apart from order and name aliases.
  */
  lemma CanonicalInjective(name1: string, tags1: seq<string>, name2: string, tags2: seq<string>)
    requires ';' !in name1 && ';' !in name2
    requires AllTagsValid(tags1) && AllTagsValid(tags2)
    requires CanonicalNameWithTags(name1, tags1) == CanonicalNameWithTags(name2, tags2)
    ensures name1 == name2 && NameTags(tags1) == NameTags(tags2)
  {
    CanonicalSplits(name1, tags1);
    CanonicalSplits(name2, tags2);
    assert ([name1] + NameTags(tags1))[1..] == NameTags(tags1);
    assert ([name2] + NameTags(tags2))[1..] == NameTags(tags2);
  }

  /** `head`, then `sep` and each element of `tags` that passes `keep`. */
  function TagString(sep: char, head: string, tags: seq<string>, keep: string -> bool): string
  {
    head + Prefixed(sep, Filter(tags, keep))
  }

  /** What one more element adds to the written string. */
  lemma TagStringSnoc(sep: char, head: string, tags: seq<string>, i: int, keep: string -> bool)
    requires 0 <= i < |tags|
    ensures TagString(sep, head, tags[..i + 1], keep)
      == TagString(sep, head, tags[..i], keep) + (if keep(tags[i]) then [sep] + tags[i] else [])
  {
    assert tags[..i + 1] == tags[..i] + [tags[i]];
    FilterSnoc(tags[..i], tags[i], keep);
    if keep(tags[i]) {
      PrefixedSnoc(sep, Filter(tags[..i], keep), tags[i]);
    }
  }

  /** The string written for all of `tags` extends the one written for the first `k`. */
  lemma TagStringPrefix(sep: char, head: string, tags: seq<string>, k: int, keep: string -> bool)
    requires 0 <= k <= |tags|
    ensures TagString(sep, head, tags, keep)
      == TagString(sep, head, tags[..k], keep) + Prefixed(sep, Filter(tags[k..], keep))
  {
    var a, b := tags[..k], tags[k..];
    assert tags == a + b;
    FilterAppend(a, b, keep);
    var fa, fb := Filter(a, keep), Filter(b, keep);
    assert Filter(tags, keep) == fa + fb;
    PrefixedAppend(sep, fa, fb);
    assert Prefixed(sep, Filter(tags, keep)) == Prefixed(sep, fa) + Prefixed(sep, fb);
  }

  /**
    Where a kept element sits in the written string: right after the `sep`
    that follows everything written for the elements before it.
  */
  lemma TagStringSlice(sep: char, head: string, tags: seq<string>, j: int, keep: string -> bool)
    requires 0 <= j < |tags| && keep(tags[j])
    ensures var w, c := TagString(sep, head, tags, keep), |TagString(sep, head, tags[..j], keep)|;
      c + 1 + |tags[j]| <= |w| && w[c] == sep && w[c + 1..c + 1 + |tags[j]|] == tags[j]
  {
    var w, a, t := TagString(sep, head, tags, keep), TagString(sep, head, tags[..j], keep), tags[j];
    TagStringSnoc(sep, head, tags, j, keep);
    TagStringPrefix(sep, head, tags, j + 1, keep);
    var rest := Prefixed(sep, Filter(tags[j + 1..], keep));
    assert w == a + [sep] + t + rest;
    assert w[|a|] == sep;
    assert w[|a| + 1..|a| + 1 + |t|] == t;
  }

  /**
    `writeSortedTagString`: sorts the tags (the caller's slice, in place) and
    writes the name, then `;` and each tag that is not a name alias.
  */
  method WriteSortedTagString(name: string, tags: seq<string>) returns (sorted: seq<string>, out: string)
    ensures sorted == Sort(tags)
    ensures out == CanonicalNameWithTags(name, tags)
  {
    sorted := Sort(tags);
    out := name;
    assert sorted[..0] == [];
    var i := 0;
    while i < |sorted|
      invariant 0 <= i <= |sorted|
      invariant out == TagString(';', name, sorted[..i], KeptInName)
    {
      TagStringSnoc(';', name, sorted, i, KeptInName);
      var t := sorted[i];
      if !IsNameAlias(t) {
        out := out + [';'] + t;
      }
      i := i + 1;
    }
    assert sorted[..|sorted|] == sorted;
  }

  /**
    The bytes hashed for an id: name, unit, mtype, the decimal interval and
    then each id tag, separated by NUL bytes.
  */
  function PreImage(name: string, unit: string, mtype: string, interval: int, idTags: seq<string>): string
  {
    Join([name, unit, mtype, Decimal(interval)] + idTags, '\0')
  }

  /** The four fields written one after another with a NUL between each. */
  lemma HeaderIsJoin(name: string, unit: string, mtype: string, interval: string)
    ensures name + "\0" + unit + "\0" + mtype + "\0" + interval == Join([name, unit, mtype, interval], '\0')
  {
    var parts := [name, unit, mtype, interval];
    assert parts[1..] == [unit, mtype, interval];
    assert [unit, mtype, interval][..2] == [unit, mtype];
    assert [unit, mtype][..1] == [unit];
    assert [unit][..0] == [];
    assert Prefixed('\0', [unit]) == "\0" + unit;
    assert Prefixed('\0', [unit, mtype]) == "\0" + unit + "\0" + mtype;
    assert Prefixed('\0', [unit, mtype, interval]) == "\0" + unit + "\0" + mtype + "\0" + interval;
  }

  /** Joining a longer list: the join of the first part, then the rest prefixed. */
  lemma JoinAppend(a: seq<string>, b: seq<string>, sep: char)
    requires a != []
    ensures Join(a + b, sep) == Join(a, sep) + Prefixed(sep, b)
  {
    var ab := a + b;
    assert ab[0] == a[0] && ab[1..] == a[1..] + b;
    assert Join(ab, sep) == a[0] + Prefixed(sep, a[1..] + b);
    PrefixedAppend(sep, a[1..], b);
    var p, q := Prefixed(sep, a[1..]), Prefixed(sep, b);
    assert a[0] + (p + q) == (a[0] + p) + q;
  }

  /** The loop of `SetId`: each tag after a NUL, name aliases skipped when asked to. */
  method AppendIdTags(buf: string, tags: seq<string>, skipAliases: bool) returns (out: string)
    ensures out == buf + Prefixed('\0', if skipAliases then Filter(tags, KeptInName) else tags)
  {
    ghost var keep := if skipAliases then KeptInName else (t: string) => true;
    out := buf;
    assert tags[..0] == [];
    var i := 0;
    while i < |tags|
      invariant 0 <= i <= |tags|
      invariant out == TagString('\0', buf, tags[..i], keep)
    {
      TagStringSnoc('\0', buf, tags, i, keep);
      var t := tags[i];
      if !(skipAliases && IsNameAlias(t)) {
        out := out + ['\0'] + t;
      }
      i := i + 1;
    }
    assert tags[..|tags|] == tags;
    if !skipAliases {
      FilterAll(tags, keep);
    }
  }

  /**
    `SetId`'s buffer: the fields with NULs between them, then each tag
    (already sorted by the caller) after a NUL, skipping name aliases when
    asked to.
  */
  method WritePreImage(name: string, unit: string, mtype: string, interval: int,
                       tags: seq<string>, skipAliases: bool) returns (buf: string)
    ensures buf == PreImage(name, unit, mtype, interval,
                            if skipAliases then Filter(tags, KeptInName) else tags)
  {
    buf := name + "\0" + unit + "\0" + mtype + "\0" + Decimal(interval);
    HeaderIsJoin(name, unit, mtype, Decimal(interval));
    buf := AppendIdTags(buf, tags, skipAliases);
    JoinAppend([name, unit, mtype, Decimal(interval)], if skipAliases then Filter(tags, KeptInName) else tags, '\0');
  }

  /** Without NUL bytes in the fields, the pre-image splits back into them. */
  lemma PreImageSplits(name: string, unit: string, mtype: string, interval: int, idTags: seq<string>)
    requires '\0' !in name && '\0' !in unit && '\0' !in mtype
    requires forall i | 0 <= i < |idTags| :: '\0' !in idTags[i]
    ensures Split(PreImage(name, unit, mtype, interval, idTags), '\0')
            == [name, unit, mtype, Decimal(interval)] + idTags
  {
    DecimalHasNoNul(interval);
    SplitJoin([name, unit, mtype, Decimal(interval)] + idTags, '\0');
  }

  /**
    Without NUL bytes in the fields, two records share a pre-image (and so an
    id, short of an MD5 collision) only when every hashed field agrees.
  */
  lemma PreImageInjective(name1: string, unit1: string, mtype1: string, interval1: int, tags1: seq<string>,
                          name2: string, unit2: string, mtype2: string, interval2: int, tags2: seq<string>)
    requires '\0' !in name1 && '\0' !in unit1 && '\0' !in mtype1
    requires '\0' !in name2 && '\0' !in unit2 && '\0' !in mtype2
    requires forall i | 0 <= i < |tags1| :: '\0' !in tags1[i]
    requires forall i | 0 <= i < |tags2| :: '\0' !in tags2[i]
    requires PreImage(name1, unit1, mtype1, interval1, tags1) == PreImage(name2, unit2, mtype2, interval2, tags2)
    ensures name1 == name2 && unit1 == unit2 && mtype1 == mtype2
    ensures interval1 == interval2 && tags1 == tags2
  {
    PreImageSplits(name1, unit1, mtype1, interval1, tags1);
    PreImageSplits(name2, unit2, mtype2, interval2, tags2);
    var p1 := [name1, unit1, mtype1, Decimal(interval1)] + tags1;
    var p2 := [name2, unit2, mtype2, Decimal(interval2)] + tags2;
    assert p1 == p2;
    assert p1[3] == Decimal(interval1) && p2[3] == Decimal(interval2);
    DecimalInjective(interval1, interval2);
    assert p1[4..] == tags1 && p2[4..] == tags2;
  }

  /**
    Why the NUL-free requirement is needed: a NUL inside a field can move a
    boundary, and two different records then hash the same bytes.
  */
  lemma PreImageNulCollision()
    ensures PreImage("a\0b", "c", "gauge", 10, []) == PreImage("a", "b\0c", "gauge", 10, [])
  {
    var d := Decimal(10);
    HeaderIsJoin("a\0b", "c", "gauge", d);
    HeaderIsJoin("a", "b\0c", "gauge", d);
    assert ["a\0b", "c", "gauge", d] + [] == ["a\0b", "c", "gauge", d];
    assert ["a", "b\0c", "gauge", d] + [] == ["a", "b\0c", "gauge", d];
    assert "a\0b" + "\0" + "c" == "a" + "\0" + "b\0c";
  }

  /**
    Why `CanonicalInjective` asks for a `;`-free name: record validation
    checks tags but not names, so a name holding `;` can take the place of a
    valid tag, and two different definitions share the canonical string.
  */
  lemma CanonicalSemicolonCollision()
    ensures ValidateTag("b=c") && AllTagsValid([]) && AllTagsValid(["b=c"])
    ensures CanonicalNameWithTags("a;b=c", []) == CanonicalNameWithTags("a", ["b=c"])
  {
  }


  /**
    The key of a `MetricDefinition`: the MD5 digest of the pre-image and the
    org. The `MKey` type itself is defined outside metric.go; here it is a
    pair of digest bytes and org id.
  */
  datatype MKey = MKey(key: seq<uint8>, org: uint32)

  /**
    `MetricData.SetId`'s id, `<org>.<hex md5>`, where the digest covers every
    tag in sorted order.
  */
  function DataId(md5: string -> seq<uint8>, orgId: int, name: string, unit: string, mtype: string,
                  interval: int, tags: seq<string>): string
  {
    Decimal(orgId) + "." + Hex(md5(PreImage(name, unit, mtype, interval, Sort(tags))))
  }

  /** The org is the part of a data id before its first `.`. */
  lemma DataIdStartsWithOrg(md5: string -> seq<uint8>, orgId: int, name: string, unit: string, mtype: string,
                            interval: int, tags: seq<string>)
    ensures var id, d := DataId(md5, orgId, name, unit, mtype, interval, tags), Decimal(orgId);
      IndexOf(id, '.') == |d| && id[..|d|] == d
  {
    var id, d := DataId(md5, orgId, name, unit, mtype, interval, tags), Decimal(orgId);
    DecimalHasNoDot(orgId);
    assert id[..|d|] == d;
    IndexOfFirst(id, '.', |d|);
  }

  /** Two data ids are equal only for equal orgs. */
  lemma DataIdDeterminesOrg(md5: string -> seq<uint8>, org1: int, org2: int, name1: string, name2: string,
                            unit1: string, unit2: string, mtype1: string, mtype2: string,
                            interval1: int, interval2: int, tags1: seq<string>, tags2: seq<string>)
    requires DataId(md5, org1, name1, unit1, mtype1, interval1, tags1)
          == DataId(md5, org2, name2, unit2, mtype2, interval2, tags2)
    ensures org1 == org2
  {
    DataIdStartsWithOrg(md5, org1, name1, unit1, mtype1, interval1, tags1);
    DataIdStartsWithOrg(md5, org2, name2, unit2, mtype2, interval2, tags2);
    DecimalInjective(org1, org2);
  }

  /** The data id does not depend on the order of the tags. */
  lemma DataIdIgnoresTagOrder(md5: string -> seq<uint8>, orgId: int, name: string, unit: string, mtype: string,
                              interval: int, a: seq<string>, b: seq<string>)
    requires multiset(a) == multiset(b)
    ensures DataId(md5, orgId, name, unit, mtype, interval, a) == DataId(md5, orgId, name, unit, mtype, interval, b)
  {
    SortIgnoresOrder(a, b);
  }

  /**
    `MetricDefinition.SetId`'s key: the digest covers the tags in sorted
    order without the name aliases, that is the canonical tags.
  */
  function DefinitionKey(md5: string -> seq<uint8>, orgId: uint32, name: string, unit: string, mtype: string,
                         interval: int, tags: seq<string>): (k: MKey)
    ensures k.org == orgId
  {
    MKey(md5(PreImage(name, unit, mtype, interval, NameTags(tags))), orgId)
  }

  /** The definition key does not depend on the order of the tags. */
  lemma DefinitionKeyIgnoresTagOrder(md5: string -> seq<uint8>, orgId: uint32, name: string, unit: string,
                                     mtype: string, interval: int, a: seq<string>, b: seq<string>)
    requires multiset(a) == multiset(b)
    ensures DefinitionKey(md5, orgId, name, unit, mtype, interval, a)
         == DefinitionKey(md5, orgId, name, unit, mtype, interval, b)
  {
    NameTagsIgnoreOrder(a, b);
  }

  /** Adding a name alias does not change the definition key. */
  lemma DefinitionKeyIgnoresAlias(md5: string -> seq<uint8>, orgId: uint32, name: string, unit: string,
                                  mtype: string, interval: int, tags: seq<string>, alias: string)
    requires IsNameAlias(alias)
    ensures DefinitionKey(md5, orgId, name, unit, mtype, interval, tags + [alias])
         == DefinitionKey(md5, orgId, name, unit, mtype, interval, tags)
  {
    NameTagsIgnoreAlias(tags, alias);
  }
}
