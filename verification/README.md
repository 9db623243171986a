# OpenTrails core in Dafny

This project models the data-handling core of OpenTrails, a small Flask
service that converts trail data from park agencies into the OpenTrails
format and checks OpenTrails bundles. It covers five pieces of the
source:

- **Validator** (`check_open_trails`): checks that the five bundle files
  exist, in a fixed order. Each missing mandatory file gives an error and a
  missing areas file gives a warning. The messages are then de-duplicated in
  first-seen order, and the bundle passes exactly when no message is an
  error.
- **Helpers** in `open_trails/functions.py`:
  - `allowed_file`: the upload filter, which accepts a name whose text after
    the last dot is `zip`.
  - `encode_list`: joins the `str()` of each item with `"; "`.
  - `make_name_trails`: builds the named-trails table. Segments with a falsy
    `name` are dropped first. Then each run of consecutive remaining segments
    sharing a name becomes one entry, numbered from "1".
- **Transformers**:
  - `portland_transform`: maps Portland's fixed schema (`TRAILID`, `HIKE`,
    `ROADBIKE`, ...) onto OpenTrails segment properties.
  - `sa_transform`: numbers San Antonio trailheads 1, 2, ... and stamps each
    with the steward id.
- **The hello.py prototype**:
  - gives every distinct truthy `trail1`..`trail5` value an id, in order of
    first appearance;
  - builds the named-trails rows from those ids;
  - converts trailheads, mapping the `Y`/`N` flags to `yes`/`no`.
- **Upload naming** (`dashes`): turns underscores into dashes.

Modules:

| module | file | holds |
|---|---|---|
| `Sequences` | sequences.dfy | Order-preserving de-duplication and first-seen numbering, shared by the validator and the prototype. |
| `Text` | text.dfy | ASCII `lower()`, decimal `str()` of naturals, and `"; "` join/split. |
| `Values` | values.dfy | The property value union (`None`, strings, integers, and other values carried with their `str()` and truthiness), Python truthiness, `str()`, and features and feature collections with an opaque geometry. |
| `Validators` | validators.dfy | The validator. |
| `Functions` | functions.dfy | The helpers of open_trails/functions.py. |
| `Transformers` | transformers.dfy | The transformers. |
| `Hello` | hello.dfy | The hello.py prototype. |
| `Upload` | upload.dfy | `dashes`. |

Conventions:

- A Python `KeyError` on a dictionary lookup becomes a precondition: the key
  must be present. Only lookups the source actually evaluates are required.
  - In `bicycle`, `MTNBIKE` is read only when `ROADBIKE` is not `Yes`,
    because `or` short-circuits.
  - In `make_name_trails`, `id` is read only for segments with a truthy name.
- File existence is a `Presence` record of five booleans. It stands in for
  the five `os.path.exists` calls.
- The validator's per-file content checks are empty (`pass`). So an
  existing file contributes no message, and the existence checks emit only
  errors and warnings.
- The transformers are fixed-schema: each output property is a fixed
  attribute, a fixed combination of attributes (`bicycle`), a constant or a
  counter. Output keys are camelCase (`stewardId`, `osmTags`). `bicycle`,
  `horse` and `wheelchair` are `yes` exactly when an attribute they read is
  exactly `Yes`; `foot` is `HIKE` lower-cased.
- `make_name_trails` groups with `itertools.groupby`, after dropping the
  segments whose name is falsy. So two segments sharing a name fall in one
  entry only when no segment with a different truthy name lies between them.

## Model

| member | source | states |
|---|---|---|
| Validators.CheckOpenTrails | open_trails/validators.py:3-43 | The messages are one missing-file message per absent file, in check order, with none repeated. A file's message is present iff that file is absent. The check passes iff the four mandatory files exist, which is iff no message is an error. A complete bundle gives no messages; a bundle missing only areas gives the single areas warning and passes. |
| Validators.DedupMessages | open_trails/validators.py:33-43 | The result equals the reference de-duplication. It has no repeats and the same members as the input, and keeps the order of first occurrence. `passed` is false iff the input, or equally the de-duplicated list, holds an error. |
| Validators.MissingFileMessageFacts | open_trails/validators.py:8-31 | A missing file's message is an error for the four mandatory files and a warning exactly for areas. Different files have different codes. |
| Validators.MissingFileMessageInjective | open_trails/validators.py:8-31 | Equal missing-file messages name the same file. |
| Validators.CheckOrderComplete | open_trails/validators.py:8-31 | Each of the five files is checked, and checked once. |
| Validators.MissingInMember | open_trails/validators.py:8-31 | The reference message list names a file iff the file is listed and absent. |
| Validators.MissingInDistinct | open_trails/validators.py:8-31 | Checking distinct files yields distinct messages. |
| Validators.MissingInHasError | open_trails/validators.py:8-41 | The messages contain an error iff some listed mandatory file is absent. |
| Validators.CollectFromAppends | open_trails/validators.py:8-31 | Running the existence checks appends exactly the reference messages to the list passed in. |
| Validators.CollectMessagesInCheckOrder | open_trails/validators.py:6-31 | The collected, not yet de-duplicated messages are the reference messages for the five files in check order. |
| Validators.MandatoryMissingInCheckOrder | open_trails/validators.py:8-26 | A mandatory file is missing iff one of trail segments, named trails, trailheads or stewards is absent. |
| Sequences.Dedup | open_trails/validators.py:36-38 | The de-duplicated list has no repeats, the same members as the input, and is no longer than it. |
| Sequences.DedupFirstSeenOrder | open_trails/validators.py:36-38 | Kept elements appear in the order of their first occurrence in the input. |
| Sequences.DedupOfDistinct | open_trails/validators.py:36-38 | A list without repeats is left unchanged. |
| Sequences.DedupIdempotent | open_trails/validators.py:36-38 | De-duplicating twice equals de-duplicating once. |
| Sequences.FirstSeenNumberingSnoc | hello.py:46-49 | Visiting one more value gives it the next id when it is new and changes nothing when it was seen before. |
| Sequences.FirstSeenNumberingDense | hello.py:39-50 | Ids are given to exactly the visited values and run from 1 to the number of distinct values. The i-th distinct value gets id i + 1. |
| Sequences.FirstSeenNumberingInjective | hello.py:39-50 | Two values with the same id are the same value. |
| Sequences.FirstSeenNumberingOrder | hello.py:39-50 | One value's id is smaller than another's iff it is first seen earlier. |
| Functions.AllowedFile | open_trails/functions.py:31-33 | A name is allowed iff it ends in `.zip`. The test is case-sensitive and equivalent to "has a dot, and the text after the last dot is `zip`". |
| Functions.RSplitOnce | open_trails/functions.py:33 | `rsplit('.', 1)`: without a dot the whole name; otherwise the parts before and after the last dot, which rejoin to the name. |
| Functions.EncodeList | open_trails/functions.py:104-107 | An empty list encodes as `""` and a single item as its `str()`. Splitting the encoding on `"; "` gives back each item's `str()` when no item contains `;`. |
| Text.SplitJoin | open_trails/functions.py:107 | Joining with `"; "` and splitting again is the identity on non-empty lists of parts without `;`. |
| Functions.NamedPairs | open_trails/functions.py:112-114 | A pair is in the result iff it is the (name, id) of some segment whose name is truthy, so every key is truthy and no id is lost or invented. A single segment gives its pair or nothing, by its name's truthiness; with `NamedPairsAppend` this fixes the result and its input order. There are none iff no name is truthy. |
| Functions.NamedPairsAppend | open_trails/functions.py:112-114 | Selecting named segments keeps input order, since it distributes over concatenation. |
| Functions.GroupRuns | open_trails/functions.py:121 | `groupby` never yields an empty group, and no two adjacent groups have the same key. The first group has the first key, and there are groups iff there is input. |
| Functions.ExpandGroupRuns | open_trails/functions.py:121-123 | Flattening the groups gives back the input pairs: none lost, added or reordered. |
| Functions.GroupRunsExpand | open_trails/functions.py:121-123 | Grouping the flattening of any maximal-run grouping gives that grouping back, so `groupby` is the unique grouping into maximal runs. |
| Functions.MakeNameTrails | open_trails/functions.py:109-130 | Entries are numbered "1", "2", ... in order, have truthy names, and have null description and part-of. Adjacent entries have different names. The result is empty iff no segment has a truthy name. |
| Functions.MakeNameTrailsGroups | open_trails/functions.py:121-130 | Entry i carries the name of the i-th run and the `encode_list` of that run's ids. |
| Functions.MakeNameTrailsIdsDistinct | open_trails/functions.py:125-130 | No two entries share an id. |
| Functions.UnnamedSegmentIgnored | open_trails/functions.py:112-114 | Inserting a segment without a truthy name anywhere leaves the table unchanged. |
| Functions.SegmentIdsPartitionNamedSegments | open_trails/functions.py:109-130 | Splitting every entry's `segment_ids` and concatenating gives the ids of the named segments in input order, when no id contains `;`. So every named segment is in exactly one entry. |
| Text.DecimalString | open_trails/functions.py:127 | `str(n)` of a natural is non-empty, all digits, and has no leading zero. |
| Text.ParseDecimalString | open_trails/functions.py:127 | Reading the decimal digits back gives the number. |
| Text.DecimalStringInjective | open_trails/functions.py:127 | Different counters give different id strings. |
| Transformers.Bicycle | open_trails/transformers.py:32-36 | The result is "yes" or "no". It is "yes" iff `ROADBIKE` or `MTNBIKE` is exactly `Yes`, and `MTNBIKE` is needed only when `ROADBIKE` is not. |
| Transformers.YesFlag | open_trails/transformers.py:38-48 | `horse`/`wheelchair`: "yes" iff the attribute is exactly `Yes`, "no" otherwise. |
| Transformers.PortlandProperties | open_trails/transformers.py:51-66 | The output has exactly the ten OpenTrails segment keys. id, stewardId and name are copied from TRAILID, AGENCYNAME and TRAILNAME. foot is HIKE lower-cased. The three flags follow their iff rules. vehicles, ski and osmTags are null. |
| Text.Lower | open_trails/transformers.py:59 | Lower-casing keeps the length, maps each character, and leaves no upper-case ASCII letter. |
| Text.LowerIdempotent | open_trails/transformers.py:59 | Lower-casing an already lower-cased `foot` value changes nothing. |
| Transformers.PortlandFootIsLowerCase | open_trails/transformers.py:59 | `foot` holds no upper-case ASCII letter, and equals `HIKE` when `HIKE` has none. |
| Transformers.PortlandTransform | open_trails/transformers.py:28-69 | One output feature per input feature, in order, with the geometry copied and the properties as above. |
| Transformers.PortlandTransformSchema | open_trails/transformers.py:50-67 | Every output feature has the full schema, and its bicycle, horse and wheelchair flags are "yes" or "no". |
| Transformers.SaTransform | open_trails/transformers.py:71-98 | The running counter gives trailhead i the id i + 1, so ids strictly increase. Each trailhead has exactly the eleven trailhead keys, its geometry and `Name` copied, the given steward id, and every other key null. The output equals the reference `SaTransformed`. |
| Transformers.SegmentsTransform | open_trails/transformers.py:18-26 | The intended fallback: the Portland result when every segment has the Portland attributes, else the San Antonio result when every feature has a `Name`, else None. |
| Transformers.SegmentsTransformAsWritten | open_trails/transformers.py:18-26 | As written, the function returns None whenever no global `raw_geojson` exists. |
| Transformers.SegmentsTransformAsWrittenCounterexample | open_trails/transformers.py:18-26 | On one complete Portland segment, the as-written function returns None while the intended one returns the Portland transform. |
| Hello.YesOrNo | hello.py:87-95 | Exactly `Y` gives "yes" and exactly `N` gives "no"; every other value gives None. |
| Hello.SlotKeysDistinct | hello.py:45-46 | The keys `trail1`..`trail5` are pairwise distinct. |
| Hello.GetTrailIds | hello.py:101-107 | The result is the truthy values of `Trail1`..`Trail5` in slot order, at most five. A value is in it iff it is truthy and sits in one of the slots. |
| Values.TruthyOnly | hello.py:104-106 | Filtering keeps exactly the truthy values and drops nothing else. |
| Values.TruthyOnlyAppend | hello.py:104-106 | Filtering keeps the input order, since it distributes over concatenation. |
| Hello.NumberSlots | hello.py:45-49 | One feature's pass numbers its truthy slots in slot order, continuing the first-seen numbering of everything visited before. |
| Hello.GiveIdsToNamedTrails | hello.py:39-50 | The id map is the first-seen numbering of the truthy `trail1`..`trail5` values, visited feature by feature and slot by slot. Exactly the visited values get ids. |
| Hello.TrailNameIdsFirstSeen | hello.py:39-50 | The ids run from 1 without gaps in order of first appearance. The i-th distinct value has id i + 1, and a smaller id means an earlier first appearance. Distinct values get distinct ids (Sequences.FirstSeenNumberingInjective). |
| Hello.VisitOrderContains | hello.py:44-47 | Every truthy slot value of every feature is visited. |
| Hello.VisitOrderOnlySlots | hello.py:44-47 | Only truthy slot values are visited. |
| Hello.SlotIds | hello.py:60-65 | One row's id list is the ids of the feature's truthy slots, in slot order. |
| Hello.BuildRows | hello.py:57-75 | One row per feature, in order, the i-th row numbered i + 1. |
| Hello.CreateNamedTrails | hello.py:52-77 | Row i is `["NAME", ids, i + 1, "DESCRIPTION", "DESIGNATION", "PART OF"]`, where ids are the first-seen ids of feature i's truthy slots in slot order. Every id lookup succeeds. |
| Hello.ConvertToOpenTrails | hello.py:109-134 | One trailhead per input feature, in order, with the geometry copied. The name and address are copied, trailIds are the truthy `Trail1`..`Trail5`, and the four flags go through `yes_or_no`. stewardId and areaId are None and the OSM tags are fixed. |
| Upload.Dashes | open_trails/upload.py:13-17 | Length is kept and every underscore becomes a dash. Nothing else changes, and no underscore is left. |
| Upload.DashesFixedPoint | open_trails/upload.py:13-17 | A name without underscores is unchanged. |
| Upload.DashesIdempotent | open_trails/upload.py:13-17 | Applying `dashes` twice equals applying it once. |
| Upload.DashesLowerCommute | open_trails/upload.py:23 | `dashes` then `lower()`, as the upload key uses, equals `lower()` then `dashes`. |

`allowed_file` has identical copies at hello.py:13-15,
open_trails/upload.py:9-11 and open_trails/routes.py:44-46. `Functions.AllowedFile`
models all of them.

## Findings

| source | as written | input that shows it | evidently intended | confidence | as-written member | corrected member |
|---|---|---|---|---|---|---|
| open_trails/transformers.py:18-26 | The parameter is named `raw_geosjon`, but both attempts read `raw_geojson`. That name is unbound, so each attempt raises NameError, the bare `except` swallows it, and the function returns None. | Any collection, for example one Portland segment with every attribute present. | Try `portland_transform` on the argument, then `sa_transform`, then give None. | high; not executed | Transformers.SegmentsTransformAsWritten (with Transformers.SegmentsTransformAsWrittenLosesInput and Transformers.SegmentsTransformAsWrittenCounterexample) | Transformers.SegmentsTransform |

## Left out

- The Flask routes, templates, uploads to S3, zip handling, `ogr2ogr` calls, file and CSV writing, and the `pdb.set_trace()` debugger stops. These are I/O or are interactive.
- `get_dataset`, `unzip`, `compress`, the sample-feature readers and `package_opentrails_archive` in functions.py. They are storage and archive I/O around the core.
- `clean_name` and `make_id_from_url`. They rest on werkzeug's `secure_filename` and `urlparse`, which are not part of this model.
- `upload_to_s3`: only its key-name step (`dashes`, then `lower()`) is modelled.
- Functions.EncodeList: renders every item with the model's `str()`. In the source, which is Python 2, `str()` of a unicode value holding non-ASCII text raises `UnicodeEncodeError`; the model renders the text instead.
- Functions.MakeNameTrails: builds each entry's segment ids with `encode_list`, so it shares that function's gap for non-ASCII unicode ids. The `name` itself is not passed through `str()`.
- Transformers.PortlandProperties: requires `HIKE` to be a string, because the source calls `.lower()` on it. A null or numeric `HIKE` raises `AttributeError` at open_trails/transformers.py:59 in the source; the model states this as a precondition rather than an exception.
- Text.Lower: lower-cases ASCII letters only. Python's `str.lower()` also maps non-ASCII letters.
- Values: Python's cross-type equality (`True == 1`, `1 == 1.0`) is not modelled. Booleans and floats are `Other` values that carry their `str()` and truthiness. Lists and dictionaries are not property values of the model: a truthy one in a `trail1`..`trail5` slot would raise `TypeError` when used as a dictionary key at hello.py:47, and that exception is not modelled.
- Transformers.SegmentsTransform: the steward id is passed in directly. `segments_transform` reads it as `steward.id`, whose attribute lookup is not modelled.
- Hello.ConvertToOpenTrails: the result records are typed values. The source's dictionaries carry no `"type": "Feature"` key on each trailhead, and that omission is not represented.
- The content checks `check_trail_segments` and the other four are empty in the source. They are modelled as leaving the message list unchanged.
- A missing dictionary key, which raises `KeyError` in the source, is a precondition here rather than a modelled exception. The exception is `segments_transform`, whose recovery from `KeyError` is modelled by testing the attributes first.
- tests.py exercises `transform_shapefile`, which lies outside these files.
