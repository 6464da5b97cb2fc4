# serde_fs: a value as a directory tree

serde_fs stores a serde value in the filesystem instead of a byte stream.

- **Encoding.** A scalar becomes one file holding its text. A sequence, tuple, map,
  struct or compound enum variant becomes a directory:
  - sequence and tuple elements go in entries named `0`, `1`, ...;
  - map entries and struct fields go in entries named by their keys;
  - a compound variant records its name in a `variant` file.
- **Decoding.** The decoder walks the same layout. It is driven by the shape the caller
  asks for.

This project models the encoder (`src/ser.rs`) and the decoder (`src/de.rs`) over an
in-memory tree:

| module | contents |
|---|---|
| `FileSystem` | A map from paths (sequences of entry names) to files and directories. It provides `remove_file`, `remove_dir_all`, `create_dir_all` and file creation, each with its deterministic failures. |
| `Text` | Boolean words, decimal integers and Rust's `str::parse` for each integer width, `str::trim` over Unicode White_Space, UTF-8, and the name order a directory listing is taken in. |
| `Values` | Serde's data model. A `Value` is what the encoder walks. A `Shape` is what a `Deserialize` implementation asks the decoder for. |
| `Encoder` | `FilesystemSerializer` and its sequence, map and struct serializers. |
| `Decoder` | `FilesystemDeserializer` with its `SeqAccess`, `MapAccess` and `VariantAccess`. |
| `Layout` | What each kind of value leaves in the tree, and the rewriting failure of the sequence serializer. |
| `Reading` | What the decoder reports for each kind of input, the error paths included. |
| `RoundTrip` | Writing a value and reading it back with its own shape gives it back. |

## Model

| member | source | states |
|---|---|---|
| FileSystem.Remove | src/ser.rs:451-458 | `remove_dir_all` removes exactly `p` and everything below it. Every other entry keeps its node, and the tree stays valid. |
| FileSystem.RemoveFile | src/ser.rs:49 | `remove_file` succeeds exactly on a file and removes only that file. On a directory it fails with IsADirectory, and on a missing path with NotFound. |
| FileSystem.EnsureDir | src/ser.rs:55 | `create_dir_all` succeeds unless `d` or one of its ancestors is a file: AlreadyExists when `d` is the file, NotADirectory when an ancestor is. It keeps every entry and adds only directories on the way to `d`. |
| FileSystem.WriteFile | src/ser.rs:353-364 | `write_to_file` succeeds iff no ancestor of `p` is a file. The file then holds exactly the content, and any directory at `p` is gone with its subtree. Outside `p` only directories on the way to it are added. A failure is AlreadyExists when the parent is a file and NotADirectory otherwise. |
| Text.Trim | src/de.rs:75-118 | `str::trim` returns a middle part of the text that neither starts nor ends with a White_Space character, including the multi-byte ones. A text with no whitespace at either end is returned unchanged. |
| Text.TrimDropsSpaces | src/de.rs:75-118 | What `Trim` removes at either end is a run of whole White_Space characters. |
| Text.ParseInt | src/de.rs:80-118 | `str::parse` for an integer width: an optional `+`, or `-` for a signed width, then decimal digits. Any result is within the width's range. |
| Text.ParseIntText | src/ser.rs:386-424 | Parsing the text `format!("{}", n)` writes gives `n` back iff `n` fits the target width, and is an error otherwise. |
| Text.TrimIntText | src/ser.rs:386-424 | The decimal text written for an integer has nothing for `trim` to remove. |
| Text.DecimalInjective | src/ser.rs:81-86 | Distinct element counters give distinct entry names. |
| Text.DecimalIsIndexName | src/ser.rs:48 | Every element name the sequence serializer writes is a name its own reconciliation later treats as an index (it parses as a `usize`). |
| Text.SortedNames | src/de.rs:327-339 | The directory listing the map decoder reads is taken in ascending byte order. It holds exactly the names of the set, each once. |
| Text.AscendingUnique | src/de.rs:327-339 | An ascending listing of a set of names is the only one, so a map written in ascending key order is listed back in its own order. |
| Text.Utf8 | src/ser.rs:436-439 | `format!("{}", c)` writes 1 to 4 bytes: one byte equal to the code point exactly when it is below 0x80, and otherwise a lead byte followed by continuation bytes. |
| Values.FindVariant | src/de.rs:226-236 | The declared variant list is searched in order, and the first variant with the name read is taken. The search reports none when no variant has that name. |
| Encoder.SeqSetupAsWritten | src/ser.rs:44-59 | The preparation as written fails with IsADirectory when `p` holds an index-named directory. In every other case it is the corrected preparation, whose full contract then applies. |
| Encoder.SeqSetup | src/ser.rs:44-59 | The intended preparation succeeds iff no ancestor of `p` is a file, and leaves `p` a directory. Below `p` it drops exactly the index-named entries with their subtrees and keeps everything else unchanged. Outside `p` only directories on the way are added. |
| Encoder.MapSetup | src/ser.rs:68-76 | `FilesystemMapSerializer::new` removes a file at `p` and makes `p` a directory that keeps every existing entry. It fails only when an ancestor is a file. |
| Encoder.NewtypeSetup | src/ser.rs:483-497 | Before a newtype variant is written, a `variant` file and any `value` entry are removed, and all else below `p` is kept. It fails only when an ancestor is a file. |
| Encoder.ClearVariant | src/ser.rs:485-493 | Inside the directory, only a `variant` file and the whole `value` subtree are removed. |
| Encoder.Write | src/ser.rs:377-449 | A scalar write succeeds iff no ancestor is a file. It leaves one file holding exactly the content, with nothing below it, and changes nothing outside `p` but the directories on the way. |
| Encoder.Encode | src/ser.rs:366-532 | Any value encoded succeeds unless an ancestor of `p` is a file or some map key is not a string, and those are the only two failures. On success the tree is valid, nothing outside `p` changes, and `p` holds a file, a directory or nothing as the value's kind requires. |
| Encoder.EncodeScalar | src/ser.rs:377-476 | The scalar serializers (bool, integers, char, str, bytes, unit, unit variant) meet the same promise, with `p` a file. |
| Encoder.EncodeSequence | src/ser.rs:94-150 | A sequence, tuple or tuple struct (with the corrected preparation) fails only on a blocked path or a non-string key nested in an element, and otherwise leaves a directory. |
| Encoder.EncodeSequenceAsWritten | src/ser.rs:502-512 | `serialize_seq` as written fails with `Io(IsADirectory)` over a directory holding an index-named directory, and otherwise behaves as the corrected `EncodeSequence`. |
| Encoder.EncodeMap | src/ser.rs:305-316 | `serialize_map` with `serialize_entry` fails only on a blocked path or a key that is not a string, and leaves a directory. |
| Encoder.EncodeStruct | src/ser.rs:324-336 | A struct fails only on a blocked path or a nested non-string key, and leaves a directory. |
| Encoder.EncodeNewtypeVariant | src/ser.rs:483-500 | A newtype variant leaves a directory, and fails only as `Encode` does. |
| Encoder.EncodeTupleVariant | src/ser.rs:514-518 | A tuple variant (with the corrected preparation) leaves a directory, and fails only as `Encode` does. |
| Encoder.EncodeTupleVariantAsWritten | src/ser.rs:514-518 | `serialize_tuple_variant` as written uses the sequence preparation as written. It fails with `Io(IsADirectory)` over a directory holding an index-named directory, and otherwise behaves as the corrected `EncodeTupleVariant`. |
| Encoder.EncodeStructVariant | src/ser.rs:528-532 | A struct variant leaves a directory, and fails only as `Encode` does. |
| Encoder.EncodeElems | src/ser.rs:81-86 | Writing the elements keeps `p` a directory and touches nothing outside it. It fails exactly when some remaining element holds a non-string key. |
| Encoder.EncodeEntries | src/ser.rs:305-316 | Writing the entries keeps `p` a directory. It fails exactly when a remaining key is not a string or a remaining value holds one. |
| Encoder.EncodeFields | src/ser.rs:328-331 | Writing the fields keeps `p` a directory. It fails exactly when a remaining field holds a non-string key. |
| Encoder.KeyText | src/ser.rs:155-281 | `MapKeySerializer` accepts a string key unchanged and rejects every other value with KeyMustBeAString. |
| Encoder.ElemsConfined | src/ser.rs:81-86 | Writing the elements changes only the entries named by their own indices. |
| Encoder.EntriesConfined | src/ser.rs:305-316 | Writing map entries changes only the entries named by their keys. |
| Encoder.FieldsConfined | src/ser.rs:328-331 | Writing struct fields changes only the entries named by those fields. |
| Encoder.IndexNamesSpec | src/ser.rs:81-86 | The names of elements `i` to `n-1` are exactly the renderings of those indices. |
| Decoder.ReadBytes | src/de.rs:53-58 | `bytes_from_file` succeeds exactly on a file and returns its whole content. A directory reads as IsADirectory. A missing path reads as NotADirectory iff a file stands above it, and as NotFound otherwise. |
| Decoder.ReadString | src/de.rs:46-51 | `string_from_file` succeeds exactly on a file whose content is valid UTF-8, and returns that content. |
| Decoder.ParseBool | src/de.rs:75-78 | `bool::from_str` gives `true` exactly for the text `true` and `false` exactly for `false`. |
| Decoder.Decode | src/de.rs:61-246 | Whatever is decoded for a shape has that shape. The per-kind outcomes are stated in `Reading`. |
| Decoder.DecodeScalar | src/de.rs:75-179 | Every scalar read for a scalar shape has that shape. |
| Decoder.DecodeSeqFrom | src/de.rs:256-276 | A sequence is read from the entries `i`, `i+1`, ... up to the first missing index, and every element has the element shape. |
| Decoder.DecodeTupleFrom | src/de.rs:256-276 | A tuple read has one element per declared shape, each of its own shape. |
| Decoder.TupleNeedsAll | src/de.rs:264-272 | A missing index below the declared length makes the tuple an error. When the elements before it read, the error is `InvalidLen` with the declared length and the missing index. |
| Decoder.DecodeMap | src/de.rs:208-211 | A map is read only from a directory. On a file the error is NotADirectory, and on a missing path NotFound or NotADirectory. |
| Decoder.DecodeEntries | src/de.rs:350-380 | Each entry read is keyed by a string and its value has the value shape. |
| Decoder.EntriesNamed | src/de.rs:353-366 | The entries come back in listing order, one per name, each keyed by its own entry name. |
| Decoder.DecodeFields | src/de.rs:213-216 | A struct's fields come back in declaration order, with their names and shapes. |
| Decoder.DecodeEnum | src/de.rs:218-237 | Whatever is decoded for an enum shape is a declared variant of the declared kind. |
| Decoder.DecodePayload | src/de.rs:284-305 | The payload read from a variant directory carries the variant name and has the declared variant kind. |
| Decoder.DecodeLocal | src/de.rs:61-305 | What is read at `p` depends only on the subtree at `p` and on whether a file stands above `p`. |
| Reading.ScalarNeedsFile | src/de.rs:46-58 | A scalar read from a missing path is NotFound, or NotADirectory under a file. Read from a directory, it is IsADirectory. |
| Reading.IntReadRule | src/de.rs:80-118 | An integer read gives ParseIntError iff the file is UTF-8 and its trimmed text does not parse for the width. It gives InvalidData iff the file is not UTF-8, and `n` iff the trimmed text parses to `n`. |
| Reading.WordIsNotInt | src/de.rs:100-103 | The text `hello` read as `u8` is ParseIntError. |
| Reading.NoBreakSpaceIsTrimmed | src/de.rs:100-103 | The bytes C2 A0 31 (a no-break space and `1`) read as `u8` give 1. |
| Reading.BoolReadRule | src/de.rs:75-78 | A boolean read is true iff the trimmed UTF-8 text is `true`, and false iff it is `false`. It is ParseBoolError iff the text is UTF-8 but neither word. |
| Reading.UnitReadRule | src/de.rs:172-184 | A unit reads as Ok exactly when `p` is a file, and as FileNotFound otherwise. |
| Reading.CharReadRule | src/de.rs:130-141 | An empty file read as a char is Empty. Otherwise the char is the first byte taken as a code point. |
| Reading.Utf8LeadIsChar | src/de.rs:130-141 | The first byte written for a char equals its code point iff the char is ASCII or U+00C3. |
| Reading.CharRoundTripRule | src/de.rs:130-141 | A char written as UTF-8 reads back as itself iff it is ASCII or U+00C3. |
| Reading.TextReadRule | src/de.rs:143-161 | A string read returns the file content exactly when it is UTF-8, and InvalidData otherwise. Bytes read always return the content. |
| Reading.OptionReadRule | src/de.rs:163-170 | An option reads as None iff `p` does not exist. Otherwise it is Some of what the inner shape reads, with the same error. |
| Reading.SeqStopsAtGap | src/de.rs:256-276 | The elements of a sequence read from index `i` form such a run: each is read from its index, and the next index is missing. |
| Reading.SeqReadRule | src/de.rs:191-195 | A sequence read has as many elements as the first missing index, and element `j` is what entry `j` reads as. |
| Reading.TupleArityRule | src/de.rs:197-206 | A tuple whose first missing index is `j`, below its length, is `InvalidLen(len, j)`. |
| Reading.MapReadRule | src/de.rs:327-380 | A map is an I/O error unless `p` is a directory. Read, it has one entry per directory entry, keyed by the entry's name, in listing order. |
| Reading.StructIgnoresOthers | src/de.rs:213-216 | A struct read depends only on the subtrees of its declared fields, so undeclared entries are never looked at. |
| Reading.FieldsAlike | src/de.rs:340-348 | The same for the declared fields from `i` on. |
| Reading.EnumReadRule | src/de.rs:218-237 | A variant name read untrimmed that no variant declares is `InvalidEnum` with that name. For a file, Ok is given exactly for a declared unit variant. A success carries the name read. |
| Layout.ScalarReplaces | src/ser.rs:353-364 | A scalar replaces whatever was at `p`, file or subtree, with one file holding exactly its text, and touches nothing outside `p`. |
| Layout.OverwriteBool | src/ser.rs:377-384 | Writing `true` then `false` at the same path leaves the text `false`. |
| Layout.AbsentRemoves | src/ser.rs:451-458 | `None` removes `p` and its subtree, and nothing else. |
| Layout.WrappersTransparent | src/ser.rs:460-481 | `Some(x)` and a newtype around `x` leave exactly the tree `x` leaves. |
| Layout.SequenceReconciles | src/ser.rs:44-59 | After a sequence is written, the index-named entries under `p` are exactly its own elements' entries: each one is named by an element, and each element other than a `None` has its entry. Every entry with any other name is kept unchanged. |
| Layout.ElementStays | src/ser.rs:81-86 | Each element's entry holds what its value leaves (a file, a directory or nothing) after all the later elements are written. |
| Layout.NoStaleIndices | src/ser.rs:44-59 | Writing a shorter sequence over a longer one leaves no entry past its last element. |
| Layout.IndexNamesOwned | src/ser.rs:48 | Every element name of a sequence that fits a `usize` is an index name. |
| Layout.MapKeepsOthers | src/ser.rs:68-76 | A map writes only the entries named by its keys. Every other entry below `p`, such as a key of an earlier larger map, stays as it was. |
| Layout.StructKeepsOthers | src/ser.rs:324-336 | A struct writes only its fields. Every other entry below `p` stays as it was. |
| Layout.MapKeyRule | src/ser.rs:305-316 | A map with a non-string key fails with KeyMustBeAString, whatever the other entries hold. |
| Layout.EntriesRejectKey | src/ser.rs:313 | The entries from `i` on fail once entry `j` has a non-string key, because the key is converted before its value is written. |
| Layout.FirstElementStays | src/ser.rs:81-86 | Element 0 keeps the kind its value calls for while the later elements are written. |
| Layout.NestedSequenceRewrite | src/ser.rs:49 | After a sequence whose first element is a directory is written, the preparation as written fails at `p` with IsADirectory, and so does the sequence encoder as written. The corrected preparation succeeds. |
| Layout.ElementsRewrite | src/ser.rs:49 | The same, once the elements are written into a prepared directory. |
| Layout.RewriteRefused | src/ser.rs:49 | When entry `0` of the directory is a directory, the preparation as written fails and the corrected one succeeds. |
| Layout.IndexDirRefused | src/ser.rs:46-50 | A directory holding an index-named directory makes the preparation as written fail with IsADirectory. |
| Layout.NestedEmptySequence | src/ser.rs:49 | `[[]]` written at a reachable path succeeds. Writing it again then fails as written, but succeeds with the corrected encoder. |
| Layout.TupleVariantRewrite | src/ser.rs:514-518 | After a tuple variant whose first element is a directory is written, writing it again fails with IsADirectory as written, and succeeds with the corrected encoder. |
| Layout.NestedTupleVariant | src/ser.rs:514-518 | The tuple variant `A([])` written at a reachable path succeeds. Writing it again then fails as written, but succeeds with the corrected encoder. |
| RoundTrip.RoundTrip | src/ser.rs:366-532 | A representable value written at an unblocked path, where no entry a map would keep is foreign to it, is encoded successfully. Decoded with its own shape (src/de.rs:61-246), it gives the value back. |
| RoundTrip.CleanAbsent | src/ser.rs:68-76 | Where `p` does not exist, every value is clean. |
| RoundTrip.CleanLocal | src/ser.rs:68-76 | Cleanliness depends only on the subtree at `p`. |
| RoundTrip.MapRewrite | src/ser.rs:68-76 | Writing a map, then a map of scalars whose keys cover the first map's keys, reads back exactly the second map. |
| RoundTrip.RoundTripAbsent | src/de.rs:163-170 | `None` removes `p` and reads back as `None`. |
| RoundTrip.RoundTripPresent | src/de.rs:163-170 | `Some(x)` reads back as `Some(x)`. |
| RoundTrip.RoundTripNewtype | src/de.rs:186-189 | A newtype reads back as itself. |
| RoundTrip.RoundTripScalar | src/de.rs:75-161 | A bool, integer, ASCII char, UTF-8 string, byte buffer or unit reads back as itself. |
| RoundTrip.IntRead | src/de.rs:80-118 | The text of an integer that fits the width reads back as that integer. |
| RoundTrip.BoolRead | src/de.rs:75-78 | The text of a boolean reads back as that boolean. |
| RoundTrip.CharRead | src/de.rs:130-141 | The UTF-8 text of an ASCII char reads back as that char. |
| RoundTrip.RoundTripSeq | src/de.rs:191-195 | A sequence reads back as itself, stale index entries of a longer earlier sequence included. |
| RoundTrip.RoundTripSeqElems | src/de.rs:256-276 | Elements written from index `i`, with no index entry present from `i` on, read back as themselves. |
| RoundTrip.RoundTripTuple | src/de.rs:197-201 | A tuple reads back as itself with its declared shapes. |
| RoundTrip.RoundTripTupleElems | src/de.rs:256-276 | Tuple elements from index `i` read back as themselves. |
| RoundTrip.RoundTripMap | src/de.rs:208-211 | A map with ascending keys, written where its directory holds none but its own keys, reads back as itself. |
| RoundTrip.MapWritten | src/de.rs:327-339 | After a map is written, its directory lists exactly its keys in ascending order, and each entry reads back. |
| RoundTrip.RoundTripEntries | src/de.rs:350-380 | Entries written with distinct keys read back in the same order. |
| RoundTrip.RoundTripStruct | src/de.rs:213-216 | A struct reads back as itself, whatever undeclared entries its directory holds. |
| RoundTrip.RoundTripFields | src/de.rs:340-348 | Fields with distinct names written from `i` on read back as themselves. |
| RoundTrip.RoundTripUnitVariant | src/de.rs:218-237 | A unit variant, written as a file holding its name, reads back as itself. |
| RoundTrip.RoundTripNewtypeVariant | src/de.rs:291-294 | A newtype variant reads back from `variant` and `value`. |
| RoundTrip.RoundTripTupleVariant | src/de.rs:296-299 | A tuple variant reads back from `variant` and its index entries. |
| RoundTrip.RoundTripStructVariant | src/de.rs:301-304 | A struct variant reads back from `variant` and its fields. |
| RoundTrip.VariantDirRead | src/de.rs:218-233 | In a directory holding a declared variant name, the enum read is the payload read for that variant's kind. |
| RoundTrip.NoIndexEntries | src/ser.rs:44-59 | After the corrected preparation, no index entry up to the sequence's length exists. |

## Findings

| source | as written | input that shows it | evidently intended | confidence | as-written member | corrected member |
|---|---|---|---|---|---|---|
| src/ser.rs:49 | The sequence serializer removes every index-named entry of an existing directory with `remove_file`. That fails with IsADirectory when the entry is a directory. | Encode `vec![Vec::<u8>::new()]` (`[[]]`) at a fresh path, then encode it again at the same path. The second write fails, although the first left only `p/0` as a directory. Any sequence whose elements are sequences, tuples, maps or structs fails the same way. So does a tuple variant such as `A(vec![])`, since `serialize_tuple_variant` uses the same preparation (src/ser.rs:514-518). | The stale element entries are removed whatever they are (with `remove_dir_all` for a directory), so re-encoding a sequence at the same path succeeds and reads back as written. | not executed | Encoder.SeqSetupAsWritten, Encoder.EncodeSequenceAsWritten, Encoder.EncodeTupleVariantAsWritten (exhibited by Layout.NestedEmptySequence and Layout.NestedTupleVariant) | Encoder.SeqSetup, Encoder.EncodeSequence, Encoder.EncodeTupleVariant (with RoundTrip.RoundTripSeq and RoundTrip.RoundTripTupleVariant) |

## Left out

- Floating point (`f32`/`f64` and their parse errors): not modelled.
- `deserialize_any`, `deserialize_identifier` and `deserialize_ignored_any`: they depend on a visitor that is not part of this model.
- `serialize_key` and `serialize_value`: not modelled, because serde's maps call `serialize_entry`, which is what `Encoder.EncodeEntries` models. (`serialize_key` also creates a file named by the key in the process's working directory, outside the tree.)
- `Encoder.KeyText`: the non-string key kinds are collapsed into one `Value` alternative each, all rejected the same way.
- `Encoder.Encode`: the result of a failure is a bare error. The partial tree the source leaves behind is not modelled. For example, entries already written before a non-string key, or index files already removed before the index-named directory that stops the sequence serializer.
- `Encoder.Encode`: it is the corrected encoder. The source's failure when rewriting sequences and tuple variants is modelled separately by `Encoder.EncodeSequenceAsWritten` and `Encoder.EncodeTupleVariantAsWritten` (see Findings).
- `Encoder.Encode`: "nothing outside `p` changes" holds because every entry name is taken as one path component. `Encode` does not require `Values.Representable`, but a key or field name that is empty or holds `/`, `.` or `..` makes `Path::join` nest, escape or replace the path in the source, so there the promise does not carry over.
- Real I/O: permissions, devices, concurrent changes, symlinks and short writes are left out. Every I/O failure modelled is one that follows from the shape of the tree.
- The panics on entry names that are not UTF-8 (`to_str().unwrap()` at src/ser.rs:48 and `into_string().unwrap()` at src/de.rs:331) are left out. `Text.IsIndexName` reads every name as bytes.
- `Decoder.DecodeMap`: `read_dir` returns entries in an order the platform chooses. The model lists them in ascending byte order (`Text.SortedNames`), so the map round trip is stated for maps given in ascending key order (`Values.KeysAscending`).
- `Values.Representable`: map keys and field names are required to be single path components (`FileSystem.ValidName`). With `/`, `.`, `..` or an empty key, `Path::join` nests, escapes or replaces the path, and that is not modelled.
- `Reading.CharRoundTripRule`: the source reads only the first byte of a char file (its own FIXME), so only ASCII chars and U+00C3 read back. The round trip is stated for ASCII chars only.
- `RoundTrip.RoundTrip`: it requires `RoundTrip.Clean`. A map keeps entries it does not write, so a foreign entry in a map's directory would be read back as an extra key. Maps nested inside sequences, tuples or newtype variants are covered only where their element entry does not exist yet (the sequence and variant writers remove those entries first).
- `Encoder.Encode`: the contract states that a failure implies a blocked path or a non-string key, and that an unblocked path with only string keys succeeds. It does not also state the converse direction, that every success has only string keys, although the encoder visits every key.
- The library entry points in src/lib.rs (`to_fs`, `from_fs`, `from_fs_in_place`) are thin wrappers that build the serializer or deserializer at a path. They are not part of this model.
