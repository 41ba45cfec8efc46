# Verification model of the Haruki toolbox backend

This project models the parts of the backend where a mistake would be silent, and proves what they are for.

- **MessagePack and JSON.** Three recursive walkers read one wire format: the ordered decoder, the depth-limited
  validator and the streaming converter to JSON. `Wire` gives the format as a tree with one shape per marker, its
  serializer, and a functional parser; `WireLaws` proves that the parser accepts exactly the serialized trees. The
  walkers themselves are imperative (a cursor that every reader advances, loops, an output that grows) and are
  proved against that parser, `Meaning` (what the decoder returns) and `Projection` (what the converter writes),
  over the doubles of `Floats`. `WireValues` says what decoded values are in terms of the bytes, `TreePaths` what
  depth and map keys are in terms of paths, and `Agreement` that decoder and converter say the same of every tree.
  `Json` holds a renderer and an independent reader of RFC 8259, `JsonLaws` proves that the second undoes the
  first. The converter checks neither depth, nor array lengths, nor the bounds of a skip: that it never leaves the
  data is proved from the validation that runs before it.
- **Schema compiler and suite restorer.** `Schema`, `Generator` and `SchemaWalk` compile an Avro-like schema to
  nested definitions, `SchemaTypes` says which records, keys and orders the types and fields denote, `Restorer` loads them and rewrites positional rows to keyed rows, `RestorerLaws` proves
  confluence and the inverse, and `RestoreTwice` exactly which definitions restore idempotently.
- **Birthday payload filter.** `BirthdayFilter` is the closure over drops, positions and fixtures, loop by loop;
  `BirthdayFilterLaws` proves idempotence and additivity.
- **Login by an outside identity.** `Identity` has the user table and the two steps of a login, `IdentityRuns` what
  every run of logins keeps. The database may fail at any operation (`up` says that it does not).
- **Smaller cores.** `Trend` (statistics buckets) and `Pkcs7` (unpadding).

Unseen library code is a parameter: the text of a float, of a non-string map key and of a coordinate, `strconv.Atoi`,
the scalar readers of the filter, lower-casing and case folding; so are the random user ids and upload codes.
`dafny verify dfyconfig.toml` checks everything.

Where the code and its comments or names differ, the model follows the code: the member `userIdString` is written
beside any `userId` that is not null or empty, arrays and objects included, not only beside scalars
(`UserIdText.ScalarText`); a string there has ill-formed UTF-8 replaced. A restore reports a change for any nested
list that is not empty, restored before or not; `RestorerLaws.SecondReport` says exactly when.

## Model

| member | source | states |
|---|---|---|
| Bytes.DecodeEncode | utils/orderedmsgpack/decoder_bytes.go:300-327 | Reading a big-endian number of any width gives back the number that was written |
| Bytes.EncodeDecode | utils/orderedmsgpack/decoder_bytes.go:300-327 | Any bytes are the big-endian form of the number they read as, so no two numbers share bytes |
| WireLaws.HeadSound | utils/orderedmsgpack/decoder_markers.go:3-47 | Whatever a marker and its length say is in the bytes: value ranges, signs, lengths and counts of every format |
| WireLaws.HeadComplete | utils/orderedmsgpack/decoder_markers.go:3-47 | Every node the format allows is recognized from its own bytes, with the right end |
| WireLaws.ParseIff | utils/orderedmsgpack/decoder_bytes.go:35-266 | From any offset, depth and limit, in any surroundings: a value is accepted as tree t ending at n exactly if the bytes up to n serialize t and no node of t is below the limit |
| WireLaws.PrefixFree | utils/orderedmsgpack/decoder_bytes.go:18-33 | No serialization is a prefix of another tree's with anything behind it: bytes stand for one tree |
| WireValues.LeafAt | utils/orderedmsgpack/decoder_bytes.go:35-194 | Any value read that is no container is what its marker and bytes say, marker by marker: unsigned numbers big-endian, signed ones in two's complement, doubles by their bits, strings and byte strings the bytes behind their length, extensions those behind the type |
| WireValues.LeafSerialized | utils/orderedmsgpack/decoder_markers.go:3-47 | The same of the bytes of every leaf the format allows |
| WireValues.EntryIff | utils/orderedmsgpack/decoder_bytes.go:196-211 | A map holds a value under a key exactly if the last of its pairs with that key has it |
| WireValues.AlikeMeans | utils/orderedmsgpack/decoder_bytes.go:59-166 | Trees that differ only in the widths of integers, lengths and counts mean the same |
| TreePaths.DepthIff | utils/orderedmsgpack/validate.go:29-36 | The depth of a tree is the length of its longest path, so an empty container counts like a leaf |
| TreePaths.StrKeysIff | utils/streamjson/compound_writer.go:117-162 | What the converter asks of a tree: every map key that a path leads to is a str |
| Meaning.PutKeys | utils/orderedmsgpack/decoder_bytes.go:196-211 | Setting a key of the ordered map keeps the order of keys, changes only that key's entry, and appends a new key |
| Meaning.PutAllDistinct | utils/orderedmsgpack/decoder_bytes.go:196-211 | A decoded map has each key once |
| Meaning.LastWins | utils/orderedmsgpack/decoder_bytes.go:196-211 | A decoded map holds a value under a key exactly if it is the value of the last pair with that key |
| Floats.WidenValue | utils/orderedmsgpack/decoder_bytes.go:103-108 | Widening a single to a double keeps its sign and its exact value, subnormals included; infinities stay infinities and NaNs NaNs |
| Decoding.ByteDecoder.ReadByte | utils/orderedmsgpack/decoder_bytes.go:291-298 | The byte at the cursor, or an error and no move |
| Decoding.ByteDecoder.Reserve | utils/orderedmsgpack/decoder_bytes.go:339-349 | Moves over n bytes if they are there, for any int n; else an error and no move |
| Decoding.ByteDecoder.ReadUint16 | utils/orderedmsgpack/decoder_bytes.go:305-311 | The big-endian number of two bytes |
| Decoding.ByteDecoder.ReadUint32 | utils/orderedmsgpack/decoder_bytes.go:313-319 | The big-endian number of four bytes |
| Decoding.ByteDecoder.ReadUint64 | utils/orderedmsgpack/decoder_bytes.go:321-327 | The big-endian number of eight bytes |
| Decoding.ByteDecoder.ReadBytesCopy | utils/orderedmsgpack/decoder_bytes.go:329-337 | The n bytes at the cursor, or an error and no move |
| Decoding.ByteDecoder.DecodeString | utils/orderedmsgpack/decoder_bytes.go:268-274 | The n bytes at the cursor, or an error and no move |
| Decoding.ByteDecoder.DecodeExtPayload | utils/orderedmsgpack/decoder_bytes.go:276-289 | The payload behind the type byte, if type and payload are there |
| Decoding.ByteDecoder.DecodeValue | utils/orderedmsgpack/decoder_bytes.go:35-57 | Returns the meaning of the wire tree at the cursor and stops at its end, or fails if there is none within depth 512; a value that is no container is what its marker and bytes say; calls and array slots stay within the bytes used |
| Decoding.ByteDecoder.DecodeSwitch | utils/orderedmsgpack/decoder_bytes.go:59-194 | The same for the markers that are not fix forms |
| Decoding.ByteDecoder.DecodeNumber | utils/orderedmsgpack/decoder_bytes.go:103-138 | Numbers of every width and sign have the value of the wire tree read, which WireValues.LeafAt gives by the bytes |
| Decoding.ByteDecoder.DecodeBytes | utils/orderedmsgpack/decoder_bytes.go:67-166 | Strings and byte strings with a length have the bytes of the wire tree read |
| Decoding.ByteDecoder.DecodeExt | utils/orderedmsgpack/decoder_bytes.go:85-148 | Extensions have the payload of the wire tree read |
| Decoding.ByteDecoder.DecodeMap | utils/orderedmsgpack/decoder_bytes.go:196-211 | Exactly n pairs, set in turn, though no length check precedes the loop; it ends because every pair uses bytes |
| Decoding.ByteDecoder.DecodePair | utils/orderedmsgpack/decoder_bytes.go:199-207 | One pass of the loop: the text of the key and the meaning of the value behind it, or a failure if either does not parse |
| Decoding.ByteDecoder.DecodeMapKey | utils/orderedmsgpack/decoder_bytes.go:213-248 | The key's own bytes if it is a str, else the printed text of its meaning; a str key is not depth-checked here, and the value behind it then is |
| Decoding.ByteDecoder.DecodeArray | utils/orderedmsgpack/decoder_bytes.go:250-266 | Exactly n elements in order; no slots are allocated beyond the bytes left |
| Decoding.ByteDecoder.ValidateValue | utils/orderedmsgpack/validate.go:29-49 | Succeeds from any offset and depth exactly where the parser does, with the same end, for any limit |
| Decoding.ByteDecoder.ValidateSwitch | utils/orderedmsgpack/validate.go:51-149 | The same for the markers that are not fix forms |
| Decoding.ByteDecoder.SkipLeaf | utils/orderedmsgpack/validate.go:51-121 | A leaf is skipped exactly to where the decoder would have read |
| Decoding.ByteDecoder.ValidateArray | utils/orderedmsgpack/validate.go:151-163 | Accepts exactly n parsed elements; the early length check rejects nothing that parses |
| Decoding.ByteDecoder.ValidateMap | utils/orderedmsgpack/validate.go:165-178 | Accepts exactly n parsed pairs; the length check, which the decoder lacks, rejects nothing that parses |
| Decoding.ValidateMaxDepth | utils/orderedmsgpack/validate.go:18-27 | Accepts exactly the serializations of trees whose deepest node is within the limit, for every limit |
| Decoding.DecodeOrderedMapBytes | utils/orderedmsgpack/decoder_bytes.go:18-33 | Succeeds exactly on serialized maps no deeper than 512 and returns their meaning, whose entries DecodedEntry gives; any run, failing or not, makes at most len+1 calls and allocates at most 514 slots a byte |
| Decoding.DecodedEntry | utils/orderedmsgpack/decoder_bytes.go:18-33 | Under a key that no later pair has, the decoded map holds the value of that pair: a leaf is what its own bytes say, signed integers in two's complement |
| Decoding.DecodedAlike | utils/orderedmsgpack/decoder_bytes.go:103-138 | Inputs that differ only in the widths chosen for integers, lengths and counts decode alike |
| Decoding.WholeParse | utils/orderedmsgpack/decoder_bytes.go:18-33 | Parsing a whole input to its end is the same as the input being one serialized tree within the limit |
| Decoding.LimitMonotone | utils/orderedmsgpack/validate.go:29-36 | What passes under a limit passes under a larger one, as the same tree with the same end: validation with a limit up to 512 implies a full decode |
| Decoding.DepthLimitExact | utils/orderedmsgpack/validate.go:13-27 | Bytes encode at most one tree, and the limits it passes under are those from its depth up |
| Json.EscapeStep | utils/streamjson/primitive_writer.go:11-51 | Escaping byte by byte is escaping the whole |
| JsonLaws.StringBack | utils/streamjson/primitive_writer.go:11-51 | For every byte string, unescaping what is written gives it back and stops at the closing quote, whatever follows |
| JsonLaws.EscapeClean | utils/streamjson/primitive_writer.go:23-46 | No control byte is ever written inside the quotes |
| JsonLaws.EscapePlain | utils/streamjson/primitive_writer.go:20-46 | A string is written as it is exactly if it holds no quote, backslash or control byte |
| JsonLaws.DecimalIsNumber | utils/streamjson/converter.go:33-41 | The text of an integer is a number of the JSON grammar, and denotes that integer |
| JsonLaws.TextBack | utils/streamjson/converter.go:12-21 | The rendered text of any value is a JSON text of RFC 8259 and reads back as exactly that value |
| JsonLaws.Compact | utils/streamjson/compound_writer.go:16-101 | The text has no blanks but those of its strings |
| UserIdText.RepairOnlyInvalid | utils/streamjson/compound_writer.go:103-115 | The text of a user id differs from its bytes exactly if these are not UTF-8 |
| UserIdText.RuneIsScalar | utils/streamjson/compound_writer.go:107-112 | A sequence taken for well-formed is the UTF-8 form of a Unicode scalar value |
| UserIdText.ScalarIsRune | utils/streamjson/compound_writer.go:107-112 | The UTF-8 form of every scalar value is taken for well-formed, at just its length |
| UserIdText.RepairSteps | utils/streamjson/compound_writer.go:107-112 | Repair keeps the form of a scalar value and replaces a byte that starts none |
| UserIdText.UnquoteBack | utils/streamjson/compound_writer.go:107-112 | Unquoting a string this converter wrote gives its bytes back, ill-formed UTF-8 replaced |
| UserIdText.ScalarText | utils/streamjson/compound_writer.go:103-115 | Which text any written value yields: none for null and the empty string, a string's own, else the written text itself |
| Projection.LastUserIdIff | utils/streamjson/compound_writer.go:46-59 | The text kept is that of the last user id member that has one; none is kept exactly if none has one |
| Projection.ProjectGood | utils/streamjson/converter.go:96-111 | With finite floats written as numbers, every number of a projection is a JSON number |
| Agreement.TreeAgrees | utils/streamjson/converter.go:27-238 | Decoder and converter say the same of every tree: equal booleans, integers and strings, null for nil and bytes, floats null exactly if not finite, arrays item by item, maps by the last value of each key |
| Agreement.MembersAt | utils/streamjson/compound_writer.go:22-64 | Member i of the object is pair i of the map, repeated keys included |
| Agreement.TailAgrees | utils/streamjson/compound_writer.go:46-80 | User game data ends with the text of its last user id that has one, told from the members alone |
| Converter.ReadUint8 | utils/streamjson/readers.go:9-12 | The byte at the reader, or an error |
| Converter.ReadUint16 | utils/streamjson/readers.go:14-20 | The big-endian number of two bytes, or an error |
| Converter.ReadUint32 | utils/streamjson/readers.go:22-28 | The big-endian number of four bytes, or an error |
| Converter.ReadUint64 | utils/streamjson/readers.go:30-36 | The big-endian number of eight bytes, or an error |
| Converter.WriteJSONString | utils/streamjson/primitive_writer.go:11-51 | Writes the quoted, escaped string that StringBack reads back |
| Converter.WriteFloat | utils/streamjson/primitive_writer.go:53-60 | Writes null for NaN and infinities, else the float's text |
| Converter.SkipAndWriteNull | utils/streamjson/primitive_writer.go:62-68 | Writes null and moves n bytes, straying only if that leaves the data |
| Converter.WriteString | utils/streamjson/compound_writer.go:164-173 | Writes the n bytes at the reader as a string, if they are there |
| Converter.ReadMsgpackString | utils/streamjson/compound_writer.go:117-162 | Reads exactly the str heads, and fails on every other value |
| Converter.WriteArray | utils/streamjson/compound_writer.go:85-101 | If n values parse here, writes the array of their projections, ends where they end and never strays; it fails exactly if one holds a map key that is not a str |
| Converter.WriteMap | utils/streamjson/compound_writer.go:16-83 | The same for n pairs; under the name userGamedata the trailing member userIdString is added |
| Converter.WriteMember | utils/streamjson/compound_writer.go:22-64 | One member: separator, key, colon and the value's projection, and the text it leaves for userIdString |
| Converter.WriteMemberValue | utils/streamjson/compound_writer.go:41-63 | A userId inside userGamedata is written through a buffer and leaves its text; the output is the same as without |
| Converter.WriteValue | utils/streamjson/converter.go:23-25 | Where a value parses, writes its projection and stops at its end without straying, or fails on a key that is not a str |
| Converter.WriteValueInObject | utils/streamjson/converter.go:27-46 | The same inside a named object |
| Converter.WriteFixedCollectionOrString | utils/streamjson/fixed_types.go:8-19 | The same for the three fix forms, each with its own mask; on any other byte it says so, and reads and writes nothing |
| Converter.WriteSwitch | utils/streamjson/converter.go:47-238 | The same for all other markers |
| Converter.WriteNumber | utils/streamjson/converter.go:96-175 | Numbers of every width and sign are written with the value of the wire tree read |
| Converter.WriteNull | utils/streamjson/converter.go:58-186 | Byte strings and extensions become null, and the unchecked skip lands on their end |
| Converter.Convert | utils/streamjson/converter.go:12-21 | Succeeds exactly on serialized trees at most 256 deep whose map keys are all strs; then the text written reads back as a JSON value that agrees with what the decoder returns for the tree, and the reader ended at the end of the data; it never reads short nor skips off the data, in any run |
| Converter.ConvertedText | utils/streamjson/converter.go:12-21 | What is written is a JSON text, and reads back as the projection |
| Restorer.ParseFieldDefs | utils/suiterestore/restorer.go:42-71 | Loads exactly what LoadsIff characterizes |
| Restorer.LoadsIff | utils/suiterestore/restorer.go:42-71 | Raw definitions load as typed ones exactly if they are their raw form: loading is one to one, and every load can be undone |
| Restorer.NewFromDefinitions | utils/suiterestore/restorer.go:28-38 | Succeeds exactly if the definitions of every field load, and keeps them all |
| Restorer.RestoreSliceChanged | utils/suiterestore/restorer.go:108-126 | The loop restores every item, keeping their order, and reports a change if any item changed |
| Restorer.ArrayToDict | utils/suiterestore/restorer.go:150-168 | The loop builds the keyed row that FlattenToDict inverts |
| Restorer.RestoreNestedInDictChanged | utils/suiterestore/restorer.go:170-189 | The keyed row is updated in place, definition by definition |
| Restorer.SuiteRestorer.RestoreFieldsWithReport | utils/suiterestore/restorer.go:84-106 | The payload is updated in place, whatever the order of the fields: the keys stay, every value that is not a defined list stays, a defined list keeps its length with item i restored from item i; the report counts exactly the defined lists with an item that is a row, or keyed with a non-empty list under a nested key |
| Restorer.AnyChangedMeans | utils/suiterestore/restorer.go:108-189 | The change flag says exactly that some item is a row, or keyed with a non-empty list under a nested key |
| Restorer.PayloadRestored | utils/suiterestore/restorer.go:84-106 | The payload and the report that the loop computes are those told by items and rows |
| RestorerLaws.ToDictAt | utils/suiterestore/restorer.go:150-168 | With distinct keys, position i of a row stands under key i if it is there and not nil, and no other position can take that key |
| RestorerLaws.Confluent | utils/suiterestore/restorer.go:108-189 | With distinct keys, whatever rows were restored beforehand, at any level, restoring the rest gives the same |
| RestorerLaws.RestoredIsPartly | utils/suiterestore/restorer.go:108-189 | A restored item, and an untouched one, are among the partly restored ones |
| RestorerLaws.Idempotent | utils/suiterestore/restorer.go:84-106 | With distinct keys, restoring a payload twice is restoring it once |
| RestorerLaws.AnyOrder | utils/suiterestore/restorer.go:108-126 | Converting any choice of rows beforehand does not change the result |
| RestorerLaws.DuplicateKeysRestoreTwice | utils/suiterestore/restorer.go:170-189 | An input on which two restores differ from one: a plain definition repeats the key of a nested one |
| RestoreTwice.AbsorbsIff | utils/suiterestore/restorer.go:108-189 | Restoring by one list of definitions after another changes no item exactly if every key the one nests, the other has and always nests, with children absorbed in turn |
| RestoreTwice.IdempotentIff | utils/suiterestore/restorer.go:108-189 | Definitions restore every item idempotently exactly if they absorb themselves, which can be read off the definitions |
| RestoreTwice.PayloadIdempotentIff | utils/suiterestore/restorer.go:84-106 | Restoring twice is restoring once, for every payload, exactly if the definitions of every field absorb themselves |
| RestoreTwice.AnyOrderIff | utils/suiterestore/restorer.go:108-126 | Rows may be converted beforehand, whichever they are and in any list, exactly under the same condition |
| RestoreTwice.DistinctAbsorb | utils/suiterestore/restorer.go:42-71 | Definitions with distinct keys at every level absorb themselves |
| RestorerLaws.UnchangedAll | utils/suiterestore/restorer.go:108-126 | What is reported unchanged is unchanged |
| RestorerLaws.SecondReport | utils/suiterestore/restorer.go:179-185 | For any definitions, a second restore reports the field exactly if some item has a list that is not empty under a nested key |
| RestorerLaws.FlattenToDict | utils/suiterestore/restorer.go:150-168 | Flattening the keyed row by the definitions gives back the row, cut and padded with nil, at every level |
| Schema.LessStrictWeak | utils/nuversestruct/schema.go:196-211 | The comparator of fields is a strict weak order |
| Schema.StableSortStable | utils/nuversestruct/schema.go:186-213 | The fields come out sorted, and fields that compare alike keep their order |
| Schema.StableSortUnique | utils/nuversestruct/schema.go:186-213 | Any stable sort gives the same list, so the sorting algorithm does not matter |
| Schema.ItemOrigin | utils/nuversestruct/schema.go:152-184 | An item record is a named record or lies inside the field |
| SchemaTypes.ItemIff | utils/nuversestruct/schema.go:152-163 | The item record of a field is a record exactly if its type, "null" alternatives aside, is an array whose items denote that record |
| SchemaTypes.RecordIff | utils/nuversestruct/schema.go:165-184 | A type denotes a record exactly if it is that record, or names it, alone or under "type" |
| SchemaTypes.LookupIff | utils/nuversestruct/schema.go:176-181 | A name is that of the record of exactly the name, else of the part behind its last dot |
| SchemaTypes.DottedName | utils/nuversestruct/schema.go:179-181 | ns.short means the record named short, where ns.short is no name itself |
| SchemaTypes.NullableMeans | utils/nuversestruct/schema.go:235-247 | A union of "null" and t means what t means, either way round |
| SchemaTypes.MsgpackKeyIff | utils/nuversestruct/schema.go:215-233 | The key of a field is what msgpack_key says, number or numeral, and what msgpackKey says only if the other says nothing |
| SchemaTypes.BeforeIff | utils/nuversestruct/schema.go:208-211 | Names are ordered by their first difference, a prefix first |
| SchemaTypes.SortedMeans | utils/nuversestruct/schema.go:196-213 | Of the sorted fields those with a key come first, by key; equal keys, and fields without, go by name |
| SchemaTypes.FieldListIs | utils/nuversestruct/schema.go:186-195 | The fields of a list are those of its parts, in order; what is no object is passed over |
| Schema.ChildMeasure | utils/nuversestruct/schema.go:131-150 | In a schema whose named records do not reach themselves, each step down has fewer names ahead or a smaller record: generation ends |
| Generator.FieldDefs | utils/nuversestruct/schema.go:131-150 | The recursive loop generates, in the order of the sorted fields, for each named field its name, with the definitions of the record its type is an array of, if any; types are read as SchemaTypes tells |
| Generator.GeneratedIsRaw | utils/nuversestruct/schema.go:131-150 | What is generated is the raw form of one definition per named field, with the same nesting |
| Generator.GeneratedLoads | utils/nuversestruct/schema.go:131-150 | Generated definitions always load, as exactly the definitions of the record |
| Generator.SortedByKey | utils/nuversestruct/schema.go:186-233 | With keys 0..n-1, the field with key i is sorted to index i |
| Generator.KeyedAt | utils/nuversestruct/schema.go:131-150 | For any record with distinct keys and names, position i of a row lands under the name of the i-th sorted field, nested rows by the definitions of their own record |
| Generator.SchemaToRow | utils/nuversestruct/schema.go:131-213 | From schema to keyed row: with keys 0..n-1 each position i lands under the name of the field with key i, and there is such a field |
| Generator.CollectRecordFields | utils/nuversestruct/schema.go:109-129 | To those given it adds, for each key, the structure of the last field of that name whose type is an array of records with any definitions, and no other |
| Generator.StructuresAt | utils/nuversestruct/schema.go:111-127 | A key has a structure exactly if some field of that name is an array of records with any definitions, and it is that of the last such field |
| Generator.GivesIff | utils/nuversestruct/schema.go:111-127 | When a field gives a structure and which, told by its type |
| Generator.KeyIsGiven | utils/nuversestruct/schema.go:111-127 | The structure under a key is that of the last field that gives one |
| Generator.StructuresLoad | utils/nuversestruct/schema.go:109-129 | Every structure of a record loads, as the definitions of the item record of a field of that name |
| SchemaWalk.SchemaGenerator.CollectNamedRecords | utils/nuversestruct/schema.go:67-83 | Every name in the schema gets a record that some order of visits leaves it: a child's over its parent's, the last of a list over those before |
| SchemaWalk.SchemaGenerator.CollectTopLevelStructures | utils/nuversestruct/schema.go:85-107 | Exactly the keys of the top-level records are added, each with a structure that some order of visits leaves it |
| SchemaWalk.GivenLoads | utils/nuversestruct/schema.go:85-107 | Whatever structure a walk may give a key, it loads |
| SchemaWalk.NamesAreFound | utils/nuversestruct/schema.go:67-83 | A name is gathered exactly if a way down the schema leads to a record of that name, and stands for one |
| SchemaWalk.StructuresAreFound | utils/nuversestruct/schema.go:85-107 | A key has a structure exactly if a way down to a top-level record, past no other record and, in an object with fields, through those only, leads to one that gives it |
| SchemaWalk.LastDecides | utils/nuversestruct/schema.go:78-82 | In a list, the last element with a record of the name decides which record it stands for |
| SchemaWalk.LastGives | utils/nuversestruct/schema.go:99-104 | In a list, the last element with a structure for the key decides which it has |
| SchemaWalk.GenerateSuiteStructures | utils/nuversestruct/schema.go:14-33 | For every schema that is acyclic under the choices of records the walk can make, the generator ends; the names are those of the records anywhere in the schema, each standing for such a record; the keys are exactly those that some top-level record gives a structure, each with such a structure; and everything loads |
| BirthdayFilter.IndexFixtures | utils/handler/subscription_filter.go:28-51 | The two indexes hold exactly the ids at each position and the positions of each id |
| BirthdayFilter.MatchDrops | utils/handler/subscription_filter.go:53-83 | Matched positions, matched fixture ids and the run of matched ids are those of the wanted drops |
| BirthdayFilter.CollectPositions | utils/handler/subscription_filter.go:88-96 | The kept positions are the matched ones and those of matched fixture ids |
| BirthdayFilter.KeepDrops | utils/handler/subscription_filter.go:98-123 | Keeps, in order, the drops that are wanted or touched by the closure, which TouchedIsLinked tells by links |
| BirthdayFilter.KeepFixtures | utils/handler/subscription_filter.go:125-140 | Keeps, in order, the fixtures at a kept position or with a matched id |
| BirthdayFilter.FilterSite | utils/handler/subscription_filter.go:19-146 | One site: matched exactly if it has a wanted drop; then a drop is kept exactly if it is wanted, stands where a wanted drop or a fixture with a matched id stands, or has a matched id, a fixture exactly if it is so linked; order and multiplicity are kept, and all other fields |
| BirthdayFilter.FilterBirthdayPartyPayload | utils/handler/subscription_filter.go:9-158 | The matched sites only, in order, each cut as FilterSite says; four fields and no more; matched ids strictly increase and are exactly the positive ids asked for that some drop has; the flag says that there are none |
| BirthdayFilter.TouchedIsLinked | utils/handler/subscription_filter.go:53-96 | The closure by indexes and sets is the one told by wanted drops and the fixtures that link to them |
| BirthdayFilter.FilteredSiteIsCut | utils/handler/subscription_filter.go:98-140 | A site is cut to exactly the wanted and linked drops and the linked fixtures, each as often and in the same order |
| BirthdayFilter.MapsAreCut | utils/handler/subscription_filter.go:19-146 | The sites put out are those with a wanted drop, in order, each so cut |
| BirthdayFilter.MatchedIdsAre | utils/handler/subscription_filter.go:53-60 | The matched ids are those of the wanted drops of all sites |
| BirthdayFilterLaws.ItemReadings | utils/handler/subscription_filter.go:211-220 | Which of two spellings counts for type, id and position, and when there is no position |
| BirthdayFilterLaws.FixtureIdReading | utils/handler/subscription_filter.go:222-232 | The fixture id is under the first of its six spellings that is there |
| BirthdayFilterLaws.SiteReadings | utils/handler/subscription_filter.go:186-192 | Which keys hold the sites, drops and fixtures; nothing there counts as none |
| BirthdayFilter.SortIds | utils/handler/subscription_filter.go:148-148 | Sorting ids without duplicates gives the increasing list of the same ids |
| BirthdayFilter.IncreasingUnique | utils/handler/subscription_filter.go:148-148 | A set of ids has one increasing list, so equal sets are reported equally |
| BirthdayFilterLaws.SameClosure | utils/handler/subscription_filter.go:53-140 | The kept drops and fixtures have the same wanted ids, matched positions, matched fixture ids and kept positions as the whole site |
| BirthdayFilterLaws.Idempotent | utils/handler/subscription_filter.go:9-158 | Filtering the output again gives the same payload and the same matched ids |
| BirthdayFilterLaws.Additive | utils/handler/subscription_filter.go:53-140 | The drops and fixtures kept for two sets of materials together are, by index, those kept for each |
| BirthdayFilterLaws.Monotone | utils/handler/subscription_filter.go:53-140 | More materials keep no less |
| BirthdayFilterLaws.UnmatchedKeepsNothing | utils/handler/subscription_filter.go:84-86 | A site that is dropped would have kept nothing |
| BirthdayFilterLaws.EmptyIffNoSite | utils/handler/subscription_filter.go:142-157 | No id is matched exactly if no site is output, and matched ids are wanted ones |
| Identity.TrimFixed | utils/api/session_kratos_identity.go:109-111 | Trimming twice is trimming once, so an identity may be trimmed at every layer |
| Identity.TrimIff | utils/api/session_kratos_identity.go:109-111 | Trimming takes off the space at both ends and nothing else |
| Identity.NormalizedIs | internal/platform/identity/email.go:6-8 | An email is stored without the space around it, lower-cased |
| Identity.DerivedNameIs | utils/api/session_kratos_identity.go:254-265 | A new user is named by the part before the first '@', without the space around it; by the whole email if that is empty |
| Identity.BindingMeans | utils/api/session_kratos_identity.go:164-177 | A user is free to be linked exactly if what it holds is nothing but space, and bound exactly if it holds the identity up to space |
| Identity.DisplayNameIs | utils/api/session_auth_proxy.go:47-51 | A name of nothing but space counts as none |
| Identity.SessionHandler.CreateKratosProvisionedUser | utils/api/session_kratos_identity.go:192-252 | Creates the user, bound to the identity, and an upload code nobody else has, both or neither: any failure leaves both tables as they were; the first of three draws that collides with nothing is the one used |
| Identity.SessionHandler.ResolveKratosIdentity | utils/api/session_kratos_identity.go:101-190 | A known identity gives its owner and changes nothing; else only a verified email may link the one free user who has it, or create a user; a refusal changes nothing; and when the database answers, exactly when it refuses, and why |
| Identity.SessionHandler.SyncResolvedUserProfile | utils/api/session_profile_sync.go:12-69 | Changes at most the row of that user: the name brought, trimmed, if any and different; the email brought, if any and different but for case; the identity unless held; all of it or nothing; never breaks a unique index; when the database answers, saves if no index forbids it |
| Identity.ProfileIsSynced | utils/api/session_profile_sync.go:37-62 | Which name, email and identity a sync saves, told by trimmed texts |
| Identity.SessionHandler.VerifyAuthProxySession | utils/api/session_auth_proxy.go:38-74 | One login step; a claimed user id that is not the resolved one is refused before the sync |
| Identity.SessionHandler.ResolveKratosSession | utils/api/session_kratos_client.go:117-156 | One login step: resolution, then sync |
| Identity.SessionHandler.ResetKratosPasswordByRecoveryCode | utils/api/session_kratos_client.go:79-115 | One login step without a sync, refused if the password is not saved |
| Identity.LinkKeepsUnique | utils/api/session_kratos_identity.go:179-189 | Binding an identity that nobody has breaks no unique index, so the constraint branch needs another call in between |
| IdentityRuns.SyncKeepsBindings | utils/api/session_profile_sync.go:37-48 | After a resolution the sync changes no binding of anybody, though it is written to overwrite one |
| IdentityRuns.StepKeeps | utils/api/session_kratos_identity.go:101-252 | A login keeps the unique indexes, loses no user, changes no binding that is not blank, and every new binding is by a verified email: the one the linked user has, or the one the new user gets |
| IdentityRuns.UnverifiedBindsNothing | utils/api/session_kratos_identity.go:129-137 | A login whose email is not called verified, or that has none, binds nobody |
| IdentityRuns.LoggedInIsBound | utils/api/session_kratos_identity.go:101-190 | A successful login leaves its user bound to the identity it came with, trimmed |
| IdentityRuns.RunKeeps | utils/api/session_kratos_identity.go:101-252 | Over every run, bindings that are not blank stay for ever and the invariants hold |
| IdentityRuns.OneUserPerIdentity | utils/api/session_kratos_identity.go:114-120 | At every point of every run an identity belongs to at most one user |
| IdentityRuns.SameUser | utils/api/session_kratos_identity.go:114-120 | Once a login by an identity succeeded, every later successful one is by the same user |
| IdentityRuns.LaterLogin | utils/api/session_kratos_identity.go:114-120 | And whenever the database answers, the later resolution does succeed, as that user, changing nothing |
| IdentityRuns.BindingsAreVerified | utils/api/session_kratos_identity.go:129-137 | Every binding of a run was there at its start, or one call made it, with a verified email that the user had, or got with its row |
| IdentityRuns.FromEmptyVerified | utils/api/session_kratos_identity.go:101-252 | Runs from empty tables meet every hypothesis, and all their bindings were made with a verified email |
| IdentityRuns.OwnerStays | utils/api/session_kratos_identity.go:114-120 | The user that a login resolved to has the identity at every later point |
| IdentityRuns.UntrimmedBindingDrifts | utils/api/session_kratos_identity.go:164-172 | Why runs start from trimmed bindings: beside one stored with a space, which none of the three writes here stores, one identity can reach two users |
| Trend.AggregateTrendCountsFromTimes | internal/modules/adminoauth/oauth_trend_helpers.go:28-41 | Each bucket counts exactly the events in range that lie in it |
| Trend.CountInRange | internal/modules/adminoauth/hydra_authorization_handlers.go:124-132 | The handler's counter is the number of events in range |
| Trend.BuildTrendPointsFromCounts | internal/modules/adminoauth/oauth_clients_helpers.go:228-253 | One point for every bucket from that of the start to the last that starts by the end, in order |
| Trend.BuildTrend | internal/modules/adminoauth/hydra_authorization_handlers.go:124-155 | The points are the whole days, or hours, from the one that holds the start to the one that holds the end, 24 hours or one apart; each counts the events in range that fall into it; together they give the count reported beside them; each event in range lies in exactly one; and they fit the estimated capacity |
| Trend.PointsCover | internal/modules/adminoauth/oauth_clients_helpers.go:208-253 | Points start at whole multiples of the width, one width apart, from the bucket of the start to that of the end; there are none exactly if the end is before the start's bucket |
| Trend.CountBetween | internal/modules/adminoauth/oauth_trend_helpers.go:28-41 | What is counted under a bucket is the number of events in range between its start and the next |
| Trend.Conservation | internal/modules/adminoauth/oauth_clients_helpers.go:228-253 | The points together count every event in range once |
| Trend.OnePoint | internal/modules/adminoauth/oauth_clients_helpers.go:208-226 | An event in range lies in the bucket of exactly one point, the one its time gives |
| Trend.PointCount | internal/modules/adminoauth/oauth_clients_helpers.go:229-241 | There are at most floor((to-from)/width)+2 points |
| Pkcs7.SafePKCS7Unpad | utils/sekai/crypto_decrypt.go:8-27 | Returns x exactly if the input is x padded, for every byte string |
| Pkcs7.PadInjective | utils/sekai/crypto_decrypt.go:8-27 | Different texts pad differently, so the text is the only one |

## Left out

- The text and kind of errors, except the three kinds a login distinguishes.
- Writers that fail: the output of the converter is unbounded. What it has written when it fails on a map key is not stated.
- The text of floats, of non-string keys, of coordinates and of `Atoi`: library code, passed in as parameters; of a finite float's text only that it is a JSON number is asked.
- Widen: a NaN becomes quiet and keeps its payload, as amd64 and arm64 do; the language leaves this to the hardware.
- DecodeMapKey: the printed text of a key that is not a str is a function of its value. Go prints a map nested in such a key as an address, which differs from run to run; that text is not modelled.
- JsonScalarAsString: does not model `strconv.Unquote` beyond the escapes that the converter itself writes.
- The marker switches of the walkers are split into several methods, one per group of formats.
- RestoreNestedInDictChanged: does not model aliasing of nested maps: a keyed row is an object while it is restored and a value inside its list; rows shared between places are not modelled. The recovery from a panic in one field is never taken by this code.
- Typed slices and maps with non-string keys, which the filter and the restorer also take: all values are of the general kinds.
- GenerateSuiteStructures: does not model cyclic schemas, on which generation does not end: acyclicity is required.
- Parsing the schema's JSON text, and rendering the structures as JSON.
- `sort.SliceStable` and `slices.Sort` are insertions; both results are proved to be the only ones possible.
- Loops over the elements of an inner set are unions where order cannot matter.
- BuildTrendPointsFromCounts: does not model the saturation of a time difference beyond 292 years, nor the capacity of a trend whose end is before its start, which the range parser excludes.
- ResolveKratosIdentity: does not model interleaved logins: each login is one atomic step. Two branches of the resolution serve other calls in between and are shown unreachable here: finding the identity after failed provisioning, and a constraint error while linking.
- An injected identity resolver, a missing database client, and the calls to the identity provider itself; reading headers, traits and verified addresses.
- Other writers of the user table, such as administration; stored bindings are taken to be trimmed at the start of a run, as this code stores them.
- AES, CBC, zstd, buffers, Redis, HTTP handlers, configuration and logging: I/O and library code. `utils/compactrestore` and pagination: their properties follow from reading single functions.
