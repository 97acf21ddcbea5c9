# raintank/schema core, modelled in Dafny

This project models the core of the `schema` package and its `msg` sub-package.
`schema` holds the metric records of a time-series pipeline: `MetricData` on the
ingest path and `MetricDefinition` in the index. The model covers these parts:

- **Validation** of a record and of its `key=value` tags (`Validate`, `ValidateTags`,
  `ValidateTag`, `ValidateTagKey`, `ValidateTagValue`).
- **Name clean-up**: `EatDots` and `SanitizeNameAsTagValue`.
- **Identity**: the id pre-image and id that `SetId` computes, the canonical
  `name;tag;tag…` string that `NameWithTags` memoises, and the rewrite that then
  points `Name` and `Tags` into that string.
- **Partitioning**: `PartitionID` under its four methods. FNV-1a 32 is modelled
  concretely. xxhash64 and jump hashing are parameters.
- **The wire envelope** of `msg`: a format byte, then a payload. This covers
  `EncodeMetricDataArray`, `DecodeMetricDataArray`, `EncodeDataPoint`,
  `DecodeDataPoint` and the format constants.

Modules, one per file:

| file | module | contents |
|---|---|---|
| `wrappers.dfy` | `Wrappers` | `Option` and `Result` |
| `numbers.dfy` | `Numbers` | fixed-width integers and Go's truncating `%`; `%d`, `%x` and little-endian renderings |
| `strings.dfy` | `Strings` | `strings.Index`, `strings.Split`, join, filter |
| `sorting.dfy` | `Sorting` | `sort.Strings` as a sort on byte strings |
| `validation.dfy` | `Validation` | tag and record validation |
| `names.dfy` | `Names` | `EatDots`, `SanitizeNameAsTagValue` |
| `identity.dfy` | `Identity` | canonical name-with-tags, id pre-images, `MKey` |
| `fnv.dfy` | `Fnv` | FNV-1a 32 |
| `partition.dfy` | `Partition` | `PartitionID` as a function of its inputs |
| `schema.dfy` | `Schema` | the classes `MetricData` and `MetricDefinition`, whose methods update their fields in place |
| `format.dfy` | `Format` | the format bytes |
| `msg.dfy` | `Msg` | the envelope encoders and decoders |

Strings are `seq<char>`, with one `char` standing for one byte.

The JSON and msgp serialisers are generated or library code. They appear as `Codec` values: a `marshal`
function and an `unmarshal` function. Every round-trip property in `Msg` assumes the hypothesis `Sound`:
whatever a codec marshals, it unmarshals back to the same value.

md5 and `MKeyFromString` are parameters, and so are xxhash64 and jump.

The two alias rules differ, and both are modelled as written:

- `NameWithTags` and `SetId` drop a tag as a `name=` alias only when it is longer than five bytes (`metric.go:125`, `metric.go:174`).
- `PartitionID` drops it already at five bytes (`partition.go:47`).

The difference only matters for the tag `name=` itself, which `ValidateTag` rejects:

- `Partition.EmptyNameTagInvalid` proves the rejection.
- `Partition.ValidTagsKeyIsCanonical` and `Partition.MemoisedKeyAgrees` prove that for any other tags the memoised string and the freshly hashed key agree.
- `Partition.NameTagSplitsTheRules` shows the one input where they differ.

## Model

| member | source | states |
|---|---|---|
| Numbers.ToUint32 | metric.go:217 | `uint32(x)`: the result is congruent to `x` modulo 2^32 and equals `x` when it is in range |
| Numbers.Int32FromBits | partition.go:31 | `int32(h)` of a 32-bit hash: congruent modulo 2^32, non-negative exactly below 2^31 |
| Numbers.TruncRem | partition.go:31 | Go's `%`: its magnitude is the remainder of the magnitudes, it is below the divisor's magnitude, and it takes the dividend's sign |
| Numbers.Decimal | metric.go:74 | `%d`: a minus sign exactly for a negative number, then at least one decimal digit and nothing else |
| Numbers.DigitsInjective | metric.go:74 | distinct naturals have distinct `%d` digit strings |
| Numbers.DecimalInjective | metric.go:74 | distinct integers have distinct `%d` renderings |
| Numbers.DecimalHasNoNul | metric.go:74 | a `%d` rendering never contains the NUL separator |
| Numbers.DecimalHasNoDot | metric.go:80 | a `%d` rendering never contains a dot, so the org part of an id ends at the first dot |
| Numbers.Hex | metric.go:80 | `%x` of a byte array: two characters per byte, high nibble first |
| Numbers.LittleEndian32RoundTrip | partition.go:27 | the four little-endian bytes of a uint32 read back as that uint32 |
| Strings.IndexOf | metric.go:310 | `strings.Index` of one byte: -1 exactly when the byte is absent; otherwise an index holding it with no earlier occurrence |
| Sorting.Sort | metric.go:66 | `sort.Strings`: the result is sorted bytewise and is a permutation of the input |
| Sorting.SortedUnique | metric.go:66 | two sorted lists with the same elements are equal |
| Sorting.SortIgnoresOrder | metric.go:66 | sorting depends only on the multiset of tags |
| Sorting.SortOfSorted | metric.go:346 | sorting an already sorted list leaves it unchanged |
| Sorting.FilterSorted | metric.go:353-357 | skipping tags of a sorted list keeps it sorted |
| Validation.ValidateTagKey | metric.go:324-330 | a valid key is non-empty and holds neither `=` nor `;`, so it ends at the tag's first `=` and stays inside one `;`-separated piece |
| Validation.ValidateTagValue | metric.go:333-343 | the value check: non-empty, no leading `~`, no `;`; its consequences are proved in `ValidateTagMeans` and `TagFromKeyValue` |
| Validation.ValidateTag | metric.go:301-321 | the length check, the first `=` that is neither first nor last, then the key and value checks; characterised without the first-`=` rule by `ValidateTagMeans` |
| Validation.ValidateTagKeyMeans | metric.go:324-330 | a key is valid exactly when it is non-empty and has none of `;!^=` |
| Validation.ValidateTagMeans | metric.go:301-321 | a tag is valid exactly when it splits at its first `=` into a valid key and a valid value |
| Validation.TagFromKeyValue | metric.go:310-320 | for a key without `=`, `key=value` is valid exactly when the key and the value are, and it splits back into them |
| Validation.ValidateTags | metric.go:291-299 | the loop returns true exactly when every tag is valid |
| Validation.TagVectorPlain | metric_test.go:31 | `abc=cba` is valid |
| Validation.TagVectorEmptyValue | metric_test.go:32 | `a=` is invalid |
| Validation.TagVectorBangEmptyValue | metric_test.go:33 | `a!=` is invalid |
| Validation.TagVectorEmptyKey | metric_test.go:34 | `=abc` is invalid |
| Validation.TagVectorBangBeforeEqual | metric_test.go:35 | `@#$%!=(*&` is invalid |
| Validation.TagVectorLeadingBang | metric_test.go:36 | `!@#$%=(*&` is invalid |
| Validation.TagVectorSemicolonInKey | metric_test.go:37 | `@#;$%=(*&` is invalid |
| Validation.TagVectorSemicolonInValue | metric_test.go:38 | `@#$%=(;*&` is invalid |
| Validation.TagVectorSymbols | metric_test.go:39 | `@#$%=(*&` is valid |
| Validation.TagVectorBangValue | metric_test.go:40 | `abc=!fd` is valid |
| Validation.TagVectorEqualsInValue | metric_test.go:40 | `a====` is valid |
| Validation.TagVectorSemicolonAfterEquals | metric_test.go:41 | `a===;=` is invalid |
| Validation.ValidateRecord | metric.go:43-60 | no error exactly when all checks pass, and each error exactly when the earlier checks pass and its own check fails |
| Names.SanitizeNameAsTagValue | metric.go:232-245 | the result is the input without its leading `~` run; it never starts with `~`; a name not starting with `~` is returned unchanged |
| Names.SanitizedNameMakesTag | metric.go:228-231 | for a sanitised name, `name=` plus the name is a valid tag exactly when the name is non-empty and has no `;` |
| Names.TrimLeftDotsMeans | metric.go:255 | the left trim is a suffix of the input, and only dots were removed |
| Names.TrimRightDotsMeans | metric.go:255 | the right trim is a prefix of the input, and only dots were removed |
| Names.TrimDots | metric.go:255 | `strings.Trim(name, ".")` neither starts nor ends with a dot |
| Names.WordsTrim | metric.go:255 | trimming the outer dots keeps the dot-separated segments |
| Names.EatDots | metric.go:250-285 | the result is the non-empty dot-separated segments of the name, joined by single dots |
| Names.CollapseDots | metric.go:263-284 | on a trimmed name the loop yields the segments joined by single dots |
| Names.CollapseStep | metric.go:265-281 | one turn of the loop keeps its invariant: output so far = segments read so far, joined, plus the dot owed |
| Names.EatDotsStepDot | metric.go:267-276 | at a dot the next byte exists; the dot is written only when a non-dot follows |
| Names.EatDotsStepWordStart | metric.go:279-280 | a byte that opens a segment is written after the owed dot |
| Names.EatDotsStepInWord | metric.go:279-280 | a byte inside a segment extends the last segment |
| Names.DoubleSeparatorGivesEmptyPiece | metric.go:270-272 | two dots in a row leave an empty segment between them, which the output drops |
| Names.EatDotsShape | metric.go:247-249 | the result has no leading, trailing or doubled dot, and the same segments as the input |
| Names.EatDotsIdempotent | metric.go:247-249 | applying `EatDots` to its own result changes nothing |
| Names.EatDotsAllDots | metric.go:248-249 | a name made only of dots yields "" |
| Identity.NameTagsMeans | metric.go:124-136 | the tags kept by `NameWithTags` are sorted and are exactly the input tags that are not `name=` aliases, with multiplicity |
| Identity.NameTagsIsSortOfFilter | metric.go:346-357 | sorting then skipping aliases equals skipping then sorting |
| Identity.NameTagsIgnoreOrder | metric.go:346 | the kept tags depend only on the multiset of tags |
| Identity.NameTagsIgnoreAlias | metric.go:125-127 | adding a `name=` alias does not change the kept tags |
| Identity.NameTagsIdempotent | metric.go:113-115 | keeping the kept tags again changes nothing |
| Identity.CanonicalSettles | metric.go:107-118 | the canonical string of the rewritten tags equals the canonical string of the original tags |
| Identity.ValidTagHasNoSemicolon | metric.go:329 | a valid tag contains no `;` |
| Identity.CanonicalSplits | metric.go:345-370 | with a `;`-free name and valid tags, splitting the canonical string at `;` gives back the name and the kept tags |
| Identity.CanonicalInjective | metric.go:345-370 | under the same conditions, equal canonical strings mean equal names and equal kept tags |
| Identity.TagStringSnoc | metric.go:353-367 | each tag appends `;tag`, or nothing when it is skipped |
| Identity.TagStringSlice | metric.go:128 | a kept tag sits in the canonical string right after the cursor and its `;` |
| Identity.WriteSortedTagString | metric.go:345-370 | the tags are sorted in place, and the output is the canonical name-with-tags string |
| Identity.AppendIdTags | metric.go:173-180 | the loop appends NUL and the tag for each tag, skipping aliases when asked |
| Identity.WritePreImage | metric.go:68-79 | the buffer is name, unit, mtype, `%d` interval and the tags, each separated by a NUL |
| Identity.PreImageSplits | metric.go:68-79 | when no field contains NUL, splitting the pre-image at NUL gives back every field |
| Identity.PreImageInjective | metric.go:68-79 | under the same condition, equal pre-images mean equal fields |
| Identity.PreImageNulCollision | metric.go:68-72 | when a field contains NUL, two different records share a pre-image |
| Identity.CanonicalSemicolonCollision | metric.go:112-139 | names are not checked for `;`, so the name `a;b=c` with no tags and the name `a` with the valid tag `b=c` share a canonical string |
| Identity.DataIdStartsWithOrg | metric.go:80 | the id is `%d` of the org, then a dot, then the rest |
| Identity.DataIdDeterminesOrg | metric.go:80 | equal ids mean equal orgs |
| Identity.DataIdIgnoresTagOrder | metric.go:65-66 | the id depends only on the multiset of tags |
| Identity.DefinitionKey | metric.go:182-185 | the key carries the org id |
| Identity.DefinitionKeyIgnoresTagOrder | metric.go:163 | the key depends only on the multiset of tags |
| Identity.DefinitionKeyIgnoresAlias | metric.go:174-176 | adding a `name=` alias does not change the key |
| Fnv.Sum32 | partition.go:56-66 | the FNV-1a 32 state after writing the data to a fresh hasher; pinned to the published algorithm by `Fnv.Vectors` and to streamed writes by `Fnv.AbsorbConcat` |
| Fnv.AbsorbConcat | partition.go:56-66 | writing `a` and then `b` to the hasher equals writing `a + b` |
| Fnv.Vectors | partition.go:56 | the published FNV-1a 32 sums of "", "a" and "foobar" |
| Partition.Reduced | partition.go:31-34 | the result lies in `[0, |partitions|)` |
| Partition.Reduce | partition.go:31-34 | the truncating `%`, then the sign flip, compute `Reduced` |
| Partition.WriteSeriesKey | partition.go:44-53 | the loop writes the name, then `;tag` for each tag that is not a `name=` alias of five or more bytes |
| Partition.HashSeriesKeyStep | partition.go:59-66 | one turn feeds `;` and the tag to FNV, or nothing for a skipped tag |
| Partition.HashSeriesKey | partition.go:56-66 | the incremental hash equals FNV-1a of the whole series key |
| Partition.PartitionOf | partition.go:21-76 | the shared body of both `PartitionID`s: the only error is the unknown method, and the modulo methods give a result in `[0, |partitions|)` |
| Partition.PartitionOfFailsExactlyOnUnknownMethod | partition.go:71-72 | an error comes back exactly for a method above 3 |
| Partition.PartitionOfInRange | partition.go:21-76 | a result is in `[0, |partitions|)` for the modulo methods, and for jump when `partitions > 0` |
| Partition.ByOrgReadsOnlyOrg | partition.go:25-34 | partitioning by org ignores the name and the tags |
| Partition.BySeriesReadsOnlyName | partition.go:35-41 | partitioning by series ignores the org and the tags |
| Partition.SeriesKeyIgnoresOrder | partition.go:45 | the series key depends only on the multiset of tags |
| Partition.SeriesKeyIsCanonical | partition.go:99-114 | when no tag is exactly `name=`, the series key is the canonical name-with-tags |
| Partition.MemoisedKeyAgrees | partition.go:101-114 | under the same condition, hashing the memoised string gives the partition that hashing the tags gives |
| Partition.RewriteKeepsSeriesKey | partition.go:101-113 | the tags that `NameWithTags` leaves give the same series key as the original tags |
| Partition.EmptyNameTagInvalid | partition.go:47 | `name=` is not a valid tag |
| Partition.ValidTagsKeyIsCanonical | partition.go:99-114 | with valid tags, the series key is the canonical name-with-tags |
| Partition.NameTagSplitsTheRules | partition.go:47 | the tag `name=` is kept by `NameWithTags` but skipped by `PartitionID` |
| Schema.MetricData.Validate | metric.go:43-60 | the error is the one `ValidateRecord` gives: none exactly when all checks pass |
| Schema.MetricData.SetId | metric.go:65-81 | the tags are sorted in place, and the id is `%d.%x` of the org and the md5 of the pre-image |
| Schema.MetricData.PartitionID | partition.go:21-76 | the tags are sorted in place for the tag methods, and the result is `PartitionOf` of the fields |
| Schema.MetricDefinition.FromMetricData | metric.go:209-226 | every field is copied or converted, and the memo starts empty |
| Schema.MetricDefinition.Clone | metric.go:143-156 | a fresh definition with every field equal |
| Schema.MetricDefinition.NameWithTags | metric.go:112-139 | the first call memoises the canonical string, keeps the name and leaves the kept tags; later calls return the memo and change nothing |
| Schema.NameWithTagsTwice | metric.go:107-115 | two calls return the same string, which is the memo |
| Schema.PointIntoCanonical | metric.go:121-136 | the rewrite loop, then the truncation, leave exactly the non-alias sorted tags |
| Schema.PointIntoCanonicalStep | metric.go:124-131 | one turn keeps the rewrite invariant |
| Schema.RewriteSkip | metric.go:125-127 | skipping an alias keeps the invariant |
| Schema.RewriteTake | metric.go:128-130 | storing the piece of the memo after the cursor keeps the invariant, and that piece is in bounds |
| Schema.RewriteDone | metric.go:133-136 | at the end, the first `i` slots are the kept tags |
| Schema.MetricDefinition.NameSanitizedAsTagValue | metric.go:158-160 | the name without its leading `~` run |
| Schema.MetricDefinition.SetId | metric.go:162-186 | the tags are sorted in place, and the key is the md5 of the alias-free pre-image, with the org |
| Schema.MetricDefinition.Validate | metric.go:188-205 | the error is the one `ValidateRecord` gives |
| Schema.MetricDefinition.PartitionID | partition.go:78-141 | the tag methods hash the memo when one exists, and otherwise sort the tags and hash the series key |
| Format.FormatGroups | msg/format.go:8-20 | the array formats are the bytes 0 to 3 and the data-point formats the bytes 0 and 1 |
| Format.FormatGroupsOverlap | msg/format.go:9-10 | the data-point bytes coincide with the legacy array bytes |
| Msg.FromLegacy | msg/msg.go:76-89 | copies id, org, name, unit, mtype, tags and value; the interval is left at 0; the timestamp is the time modulo 2^32 |
| Msg.LegacyRecordFailsValidation | msg/msg.go:76-89 | since the interval is not carried over, a decoded legacy record with a non-zero org fails record validation with the zero-interval error (metric.go:47-48) |
| Msg.FromLegacyForgets | msg/msg.go:76-89 | records differing only in interval, or in time modulo 2^32, map to the same record |
| Msg.FillFromLegacy | msg/msg.go:75-90 | the loop fills the slice exactly when it is long enough, with the mapped records |
| Msg.EncodedArray | msg/msg.go:18-42 | a message exists exactly when the version is a current array format and marshalling succeeds; it is the version byte, then the payload |
| Msg.EncodeArrayFormats | msg/msg.go:25-32 | any other version is refused as an unknown format, and a message starts with its version |
| Msg.EncodeMetricDataArray | msg/msg.go:18-42 | writes only the current formats 2 and 3, as the version byte followed by the payload, and what it writes decodes back to the records (`EncodedArray`, `ArrayRoundTrip`) |
| Msg.DecodedArray | msg/msg.go:44-123 | a decoded array means a known array format byte, and at least 9 bytes for the legacy formats |
| Msg.ArrayRoundTrip | msg/msg.go:18-63 | an encoded array decodes back to the same records |
| Msg.LegacyArrayDecodes | msg/msg.go:64-118 | a legacy array behind a format byte and 8 id bytes decodes to the mapped records |
| Msg.ArrayTooSmall | msg/msg.go:46-48 | too small exactly for the empty buffer, and for a legacy format shorter than 9 bytes |
| Msg.DecodeMetricDataArray | msg/msg.go:44-123 | as written: panics exactly when the legacy msgp branch reads a non-empty array; otherwise returns `DecodedArray` |
| Msg.LegacyMsgpPanics | msg/msg.go:91-118 | a legacy msgp message of one record panics as written, and the corrected decoder returns the record |
| Msg.EncodedDataPoint | msg/msg.go:126-154 | other types are refused; a message keeps the given buffer as its prefix, followed by the discriminator of the point's type (0 for a record, 1 for a point) |
| Msg.EncodeDataPointAppends | msg/msg.go:127 | encoding after existing bytes appends the message that an empty buffer would hold |
| Msg.EncodeDataPoint | msg/msg.go:126-154 | appends to the buffer the discriminator of the point's type and its payload, refusing other types, and the appended message decodes back to the point (`EncodedDataPoint`, `DataPointRoundTrip`) |
| Msg.DispatchDataPoint | msg/msg.go:157-194 | the switch on the first byte: a point exactly for byte 1, a record read from the rest for byte 0, otherwise the whole buffer as a legacy record; never an "other" data point; the only error is a failed unmarshal |
| Msg.DecodedDataPoint | msg/msg.go:156-194 | never yields an "other" data point; too small exactly for the empty buffer |
| Msg.DecodeDataPoint | msg/msg.go:156-198 | as written: panics exactly on the empty buffer, and otherwise agrees with `DecodedDataPoint` |
| Msg.DataPointRoundTrip | msg/msg.go:126-171 | an encoded record or point decodes back to itself |
| Msg.LegacyDataPointFallback | msg/msg.go:172-193 | a legacy record whose first byte is no data-point format decodes to the mapped record |

## Left out

- `archive.go` and the `Archive` type are not part of this model.
- Clone: the atomic loads of `LastUpdate` and `Partition` are plain reads; concurrency is not modelled.
- md5, xxhash64, jump hashing and `MKeyFromString` are function parameters. jump's range is the hypothesis `JumpInRange`.
- The JSON and msgp serialisers are `Codec` parameters under the round-trip hypothesis `Sound`. Their wire formats, and what they accept beyond a marshalled value, are not modelled.
- The fields of `MetricPoint` are the type parameter `P` of `Msg.DataPoint`.
- `float64` values are opaque 64-bit patterns (`Numbers.Float64`); no floating-point arithmetic is done on them.
- Strings are byte strings with one `char` per byte. `EatDots` ranges over runes in Go and truncates each one to a byte; for non-ASCII input that decoding is not modelled.
- Slice aliasing is not modelled:
  - `NameWithTags` points `Name` and `Tags` into the memoised string; the model stores equal values.
  - `Clone` and `EncodeDataPoint` share the caller's backing arrays; the model copies values.
- Writes to `bytes.Buffer` and to hashers never fail, so those unreachable error returns are left out. The same holds for `binary.Write`.
- Error message texts are not modelled. `Msg.MsgError` names each error kind.
- Go `int` fields (`OrgId`, `Interval`) and `int64` times are unbounded integers. Only the explicit conversions (`uint32(...)`, `int32(...)`) are modelled.
- Partition.PartitionOf: requires `partitions != 0` for the modulo methods, where Go panics with an integer division by zero. On an unknown method it returns only the error, not the accompanying 0.
- Schema.MetricData.PartitionID: same requirement as `Partition.PartitionOf`.
- Schema.MetricDefinition.PartitionID: same requirement as `Partition.PartitionOf`.
- Sorting.Sort: `sort.Strings` is modelled by its result (an insertion sort); the in-place steps of Go's sort algorithm are not modelled.

## Findings

| source | as written | input that shows it | evidently intended | confidence | as-written member | corrected member |
|---|---|---|---|---|---|---|
| msg/msg.go:103-104 | the legacy msgp branch stores into `metrics[i]`, but `metrics` is still the empty slice made at line 49 | format byte 1, eight id bytes, then a msgp array of one legacy record: the index is out of range | size `metrics` to the legacy records first, as the legacy JSON branch does at line 74 | high; not executed | Msg.DecodeMetricDataArray, Msg.LegacyMsgpPanics | Msg.DecodedArray, Msg.LegacyArrayDecodes |
| msg/msg.go:157 | `b[0]` is read with no length check | the empty buffer: the index is out of range | refuse a buffer too small to hold a format byte, as `DecodeMetricDataArray` does at lines 46-48 | high; not executed | Msg.DecodeDataPoint | Msg.DecodedDataPoint, Msg.DataPointRoundTrip |
