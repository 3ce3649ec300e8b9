# seldon-python-microservice — a Dafny model of its core

This project models the logic at the heart of the Seldon Python model
microservice. The service wraps a user's model and exchanges arrays with the
Seldon engine over three transports: REST (JSON), gRPC (protobuf `DefaultData`)
and FlatBuffers (`SeldonRPC`/`SeldonMessage`). The project models:

- the request guard;
- the array codecs for REST and gRPC;
- the FlatBuffers envelope builder and reader;
- deriving the package version from `git describe`, and rewriting `__init__.py`;
- parsing model parameters and pod annotations at start-up.

The model is organised as follows:

- An array is its shape plus its row-major values (`Arrays.NdArray`). The
  element type `V` is left abstract.
- The nested-list form (`tolist()`, `np.array(nested)`, protobuf `ListValue`)
  is a tree of leaves and nodes (`Arrays.Nested`).
- numpy's `reshape`, including its one "unknown" (negative) dimension, is
  `Arrays.Reshape`.
- The FlatBuffers builder is a class, `FlatBuffers.Builder`. It keeps the
  finished objects and the vector under construction, and elements are
  prepended to that vector.
- Tables are records holding the offsets the builder returned.
- The encoder and decoder are methods proved against the functions
  `Encoded` and `Decoded`.
- The loops of `_write_version_into_init`, `parse_parameters` and
  `load_annotations` are methods proved against the functions
  `Kept`, `ParsedPrefix` and `AnnotationsOf`.

Modules:

| module | file | models |
|---|---|---|
| `Wrappers` | wrappers.dfy | `Option`, `Result`, `Outcome` |
| `Arrays` | arrays.dfy | numpy: shape, flatten, `tolist`, `np.array(nested)`, `reshape` |
| `Common` | common.dfy | seldon_microservice/common.py |
| `FlatBuffers` | flatbuffers.dfy | the FlatBuffers `Builder` as a prepend-only vector builder |
| `TesterFlatbuffers` | tester_flatbuffers.dfy | seldon_microservice/tester_flatbuffers.py |
| `Text` | text.dfy | Python `str` helpers: `strip`, `split`, `startswith`, `in`, `lower`, `[1:-1]` |
| `Packaging` | packaging.dfy | seldon_microservice/_packaging.py |
| `Microservice` | microservice.dfy | seldon_microservice/microservice.py |

`np.array([])` has shape `(0,)`, so the empty array returned by
`rest_datadef_to_array` and `grpc_datadef_to_array` has shape `[0]` and no
values (`Arrays.EmptyArray`).

The version derivation takes the reading of the tag-prefix class as a
parameter `cls` (see "## Findings"): `AsWritten` is the program as it stands,
`Intended` the evidently intended class.

Process, file and network access become parameters of the model:

- The outcomes of the two git invocations are `GitRun` values.
- The `.version` file is a `VersionFile`.
- The annotations file is `Option<seq<string>>`: absent or unreadable is `None`.
- Python's `float`/`int`/`str`/`bool` conversions are a parameter `convert`.
- Python truthiness is a parameter `truthy`.

## Model

| member | source | states |
|---|---|---|
| Common.NewSeldonError | seldon_microservice/common.py:13-21 | the status code is 400 unless a status code is passed, in which case it is that code; message and payload are kept |
| Common.ToDictReportsOnlyTheMessage | seldon_microservice/common.py:23-25 | whatever status code and payload the exception holds, `to_dict` reports status 1, code -1, reason `MICROSERVICE_BAD_DATA` and the message as info |
| Common.Get | seldon_microservice/common.py:31-36 | `get` is a present value exactly when the key is there and not null, and is then that value |
| Common.SanityCheckRequest | seldon_microservice/common.py:28-37 | passes exactly for a dictionary whose non-null `data` is a dictionary with a non-null `ndarray` or `tensor`; otherwise the first failing guard, in source order, decides the message; every failure carries status 400 |
| Common.TensorToArray | seldon_microservice/common.py:70 | a reshaped tensor is a valid array with the tensor's values and rank, keeping every non-negative requested dimension; with no unknown dimension it succeeds exactly when the product of the shape is the number of values |
| Common.RestDatadefToArray | seldon_microservice/common.py:68-75 | a present tensor decides; else a present ndarray is converted; else the result is the empty array of shape `[0]`; every success is a valid array |
| Common.TensorTakesPrecedence | seldon_microservice/common.py:69-72 | with a tensor present, the ndarray entry does not affect the result |
| Common.TensorSizeMismatchFails | seldon_microservice/common.py:70 | a tensor whose shape has no unknown dimension and does not multiply out to the number of values is a reshape failure |
| Common.ArrayToRestDatadef | seldon_microservice/common.py:78-89 | `names` is carried over; a tensor is produced exactly when the original had one, and an ndarray otherwise; the tensor has the array's shape and values; the ndarray has the array's shape and flattens to its values |
| Common.RestRoundTrip | seldon_microservice/common.py:68-89 | decoding the encoded REST data gives back the array, for either variant of the original (the ndarray variant needs no empty non-trailing axis) |
| Common.RestVariantPreserved | seldon_microservice/common.py:78-89 | a reply to a request keeps the request's variant, with tensor taking precedence |
| Common.GrpcDatadefToArray | seldon_microservice/common.py:92-100 | dispatch on the one-of field: tensor is reshaped, ndarray converted, an unset field gives the empty array |
| Common.ListValueIsNesting | seldon_microservice/common.py:56-65 | the list value built for an array is the children of its `tolist()` nesting |
| Common.ListValueShape | seldon_microservice/common.py:56-65 | the list value has the array's shape, flattens to its row-major values, and nests as deep as the array's rank |
| Common.ArrayToListValue | seldon_microservice/common.py:56-65 | rank 0 cannot be iterated and fails; otherwise the result is the list value for the array |
| Common.FillListValue | seldon_microservice/common.py:59-64 | the recursive fill with its loop over the rows produces exactly the list value for the shape and values |
| Common.ArrayToGrpcDatadef | seldon_microservice/common.py:103-123 | `"tensor"` gives the tensor form; any other data type gives the list-value form, or the rank-0 failure; `names` is carried in every case |
| Common.GrpcRoundTrip | seldon_microservice/common.py:92-123 | decoding the encoded gRPC data gives back the array, in the tensor form always and in the list-value form for rank ≥ 1 without empty interior axes |
| Arrays.EmptyArray | seldon_microservice/common.py:74 | `np.array([])` is a valid array of shape `[0]` with no values |
| Arrays.FromNested | seldon_microservice/common.py:72 | converting a nested list succeeds exactly for rectangular input; the array's shape is inferred from the first child at each level and its values are the leaves in order; ragged input fails |
| Arrays.ToNestedFlatten | seldon_microservice/common.py:86 | a tree of a given shape is re-nested from its row-major leaves |
| Arrays.FlattenToNested | seldon_microservice/common.py:83 | flattening `tolist()` gives the row-major values back |
| Arrays.ToNestedHasShape | seldon_microservice/common.py:86 | `tolist()` of a valid array has the array's shape |
| Arrays.FromNestedToNested | seldon_microservice/common.py:72 | `np.array(a.tolist())` is `a` when no axis before the last is empty |
| Arrays.EmptyRowsLoseTheirShape | seldon_microservice/common.py:72 | an array of shape `[0, 3]` comes back from its nesting with shape `[0]` |
| Arrays.DepthIsRank | seldon_microservice/common.py:56-65 | the nesting of an array is exactly as deep as its rank when no interior axis is empty |
| Arrays.Reshape | seldon_microservice/common.py:70 | more than one negative dimension is an error; with exactly one, success exactly when the product of the other dimensions is non-zero and divides the number of values, and the negative dimension becomes the quotient; with none, success exactly when the product equals the number of values; any other failure is a size mismatch; a success is a valid array with the same values and rank, keeping the given dimensions |
| Arrays.ReshapeOwnShape | seldon_microservice/common.py:70 | reshaping a valid array's values by its own shape gives the array |
| Arrays.ProductWithInferred | seldon_microservice/common.py:70 | filling in the one unknown dimension with the quotient makes the product equal the number of values |
| FlatBuffers.PrependInReverseIndexOrder | seldon_microservice/tester_flatbuffers.py:16-28 | prepending elements from the last index down to 0 leaves them in index order |
| FlatBuffers.PrependedOnto | seldon_microservice/tester_flatbuffers.py:17-18 | prepending items one by one puts them, reversed, in front of the vector |
| FlatBuffers.Builder.CreateString | seldon_microservice/tester_flatbuffers.py:15 | a new string object is appended and its offset returned |
| FlatBuffers.Builder.StartVector | seldon_microservice/tester_flatbuffers.py:16 | a new, empty vector is begun |
| FlatBuffers.Builder.PrependUOffsetTRelative | seldon_microservice/tester_flatbuffers.py:18 | the offset is put in front of the vector under construction |
| FlatBuffers.Builder.PrependInt32 | seldon_microservice/tester_flatbuffers.py:22 | the value is prepended exactly when it fits in a signed 32-bit integer, and the call reports whether it did |
| FlatBuffers.Builder.PrependFloat64 | seldon_microservice/tester_flatbuffers.py:27 | the value is put in front of the vector under construction |
| FlatBuffers.Builder.EndVector | seldon_microservice/tester_flatbuffers.py:19 | the vector is finished as a new object whose offset is returned |
| TesterFlatbuffers.Decoded | seldon_microservice/tester_flatbuffers.py:62-82 | a protocol other than V1 fails before anything is read; a data type other than DefaultData fails next; a V1 DefaultData message decodes exactly when numpy reshapes its values by its shape, and otherwise fails with reshape's error; a success is the values reshaped, keeping each non-negative decoded dimension, with the names in index order |
| TesterFlatbuffers.SeldonRpcToNumpyArray | seldon_microservice/tester_flatbuffers.py:62-82 | the guards and the read-back loops compute exactly `Decoded` |
| TesterFlatbuffers.Encoded | seldon_microservice/tester_flatbuffers.py:10-59 | succeeds exactly when every dimension fits Int32 and `names` is non-empty; the Int32 failure comes first; a success is size-prefixed with method PREDICT, payload SeldonMessage, protocol V1, status 200 SUCCESS and data type DefaultData |
| TesterFlatbuffers.NumpyArrayToSeldonRpc | seldon_microservice/tester_flatbuffers.py:10-59 | the builder calls, with every vector filled from the last index down, produce exactly `Encoded` |
| TesterFlatbuffers.WriteNames | seldon_microservice/tester_flatbuffers.py:12-19 | with names, the strings and then the vector of their offsets are written and the vector's offset is the number of names; without names nothing is written and no offset is bound |
| TesterFlatbuffers.WriteShape | seldon_microservice/tester_flatbuffers.py:20-23 | an offset comes back exactly when every axis length fits in an `int32`, and then the shape vector, read in index order, is the shape |
| TesterFlatbuffers.WriteValues | seldon_microservice/tester_flatbuffers.py:24-28 | the values vector, read in index order, is the row-major values, at the next offset |
| TesterFlatbuffers.EncodedVectorsReadInOrder | seldon_microservice/tester_flatbuffers.py:16-28 | in an encoded message the names, shape (one entry per axis) and values vectors read back in logical order |
| TesterFlatbuffers.MessageRoundTrip | seldon_microservice/tester_flatbuffers.py:10-82 | decoding the encoded `SeldonMessage` gives back the array and the names |
| TesterFlatbuffers.ProtocolGuardFirst | seldon_microservice/tester_flatbuffers.py:64 | with a protocol other than V1 the data type and the data tables do not matter |
| Text.Strip | seldon_microservice/_packaging.py:142 | the result is a slice of the string with only Python whitespace before and after it, and it neither starts nor ends with whitespace |
| Text.StripLine | seldon_microservice/_packaging.py:142 | stripping a line whose text has no whitespace at either end removes only its final newline |
| Text.RStrip | seldon_microservice/microservice.py:59 | the result is a prefix, does not end in whitespace, and only whitespace was removed |
| Text.StripIdempotent | seldon_microservice/_packaging.py:130 | stripping twice is stripping once |
| Text.SplitCount | seldon_microservice/microservice.py:60 | `split` gives one more part than there are separators |
| Text.SplitJoin | seldon_microservice/microservice.py:60 | joining the parts with the separator gives back the string |
| Text.SplitPartsFree | seldon_microservice/microservice.py:60 | no part contains the separator |
| Text.Dequote | seldon_microservice/microservice.py:63 | `[1:-1]`: the first and last characters are removed, and shorter strings give "" |
| Packaging.TailAtExact | seldon_microservice/_packaging.py:75-76 | the tail matcher accepts exactly `version-post-ghash` with the pattern's character classes and at least 7 hash digits, before the end or a final newline, and yields exactly those groups |
| Packaging.MatchSound | seldon_microservice/_packaging.py:73-76 | a match is a prefix from the tag-prefix class, an optional `v`, and the tail |
| Packaging.MatchComplete | seldon_microservice/_packaging.py:73-76 | whenever the string has that shape, the matcher finds a match |
| Packaging.MatchAtGreedyPrefix | seldon_microservice/_packaging.py:73-74 | where the greedy prefix stops and the tail matches there, after a `v` if one follows, that is the match |
| Packaging.VersionHasNoDash | seldon_microservice/_packaging.py:75 | the captured version contains no `-` |
| Packaging.FormatVersion | seldon_microservice/_packaging.py:176 | post count `"0"` gives the tag's version; otherwise `version.post<n>+<hash>` |
| Packaging.VersionFromDescribe | seldon_microservice/_packaging.py:168-176 | for either reading of the prefix class, a missing describe result is matched as "" and gives no version; a version found is never empty |
| Packaging.VersionOfMatch | seldon_microservice/_packaging.py:172-176 | for either reading of the prefix class, a matching describe string yields its groups, formatted |
| Packaging.VersionExactlyWhenShaped | seldon_microservice/_packaging.py:73-76 | for either reading of the prefix class, a describe string gives a version exactly when it is a class prefix, an optional `v` and `version-post-ghash` before the end |
| Packaging.VTagWithCommits | seldon_microservice/_packaging.py:73-76 | `v1.2.3-4-g0123abc` matches with version `1.2.3`, post `4` and hash `0123abc` under either reading of the prefix class |
| Packaging.VTagWithCommitsVersion | seldon_microservice/_packaging.py:176 | the version for it is `1.2.3.post4+0123abc`, under either reading |
| Packaging.VTagExactly | seldon_microservice/_packaging.py:176 | at the tag itself the version is the tag without its `v`, under either reading; the string ends in a newline, which `$` accepts |
| Packaging.ShortStringsDoNotMatch | seldon_microservice/_packaging.py:73-76 | no string shorter than twelve characters matches the describe pattern, under either reading of the prefix class |
| Packaging.BareHashHasNoVersion | seldon_microservice/_packaging.py:172-174 | the bare hash that `--always` prints without a tag gives no version, under either reading |
| Packaging.PrefixClassAsWrittenRejects | seldon_microservice/_packaging.py:73-76 | as written, `rel-1.0-3-gabcdef0` does not match and gives no version |
| Packaging.PrefixClassIntendedAccepts | seldon_microservice/_packaging.py:73-76 | with the intended class, `rel-1.0-3-gabcdef0` matches with groups `1.0`, `3`, `abcdef0` and gives `1.0.post3+abcdef0` |
| Packaging.GitDescribeTags | seldon_microservice/_packaging.py:133-153 | git that cannot start is an `OSError`; rc 0 is the stripped output; rc 128 with either phrase is no tag; every other code is `CalledProcessError` |
| Packaging.GitDescribeTagsClassifies | seldon_microservice/_packaging.py:141-153 | rc 0 exactly gives a tag string, the rc 128 phrases exactly give none, every other exit code exactly fails with that code and stderr; git that cannot be started, for either call, is an `OSError` |
| Packaging.GitStderrCaseInsensitive | seldon_microservice/_packaging.py:143-146 | the stderr phrases are recognised whatever their ASCII case |
| Packaging.GetVersion | seldon_microservice/_packaging.py:95-107 | for either reading of the prefix class, the version is never empty |
| Packaging.VersionFileWins | seldon_microservice/_packaging.py:95 | a non-blank `.version` file gives its stripped text, and git does not matter |
| Packaging.BlankVersionFileFallsThrough | seldon_microservice/_packaging.py:95 | a blank `.version` file counts as no file |
| Packaging.GitOrDefault | seldon_microservice/_packaging.py:95-97 | with no file, the result is the git-derived version if there is one, else `0.0.0` |
| Packaging.FailuresGiveDefault | seldon_microservice/_packaging.py:98-106 | an unreadable file or a failing git gives `0.0.0` |
| Packaging.RelTagGetVersion | seldon_microservice/_packaging.py:95-97 | with no `.version` file, a working git and describe output `rel-1.0-3-gabcdef0` plus newline, the program gives `0.0.0`, and the intended class gives `1.0.post3+abcdef0` |
| Packaging.WriteVersionIntoInit | seldon_microservice/_packaging.py:191-201 | the in-place rewrite of the line list and the join compute the concatenation of the kept lines |
| Packaging.KeptLines | seldon_microservice/_packaging.py:193-201 | every remaining line is the version line or an original line that neither starts with `__version__` nor contains `._packaging`; every such original line remains; a `__version__` line yields the version line |
| Packaging.KeptInOrder | seldon_microservice/_packaging.py:193-201 | surviving lines keep their original relative order |
| Packaging.RewriteIdempotent | seldon_microservice/_packaging.py:193-201 | rewriting the result again with the same version changes nothing |
| Microservice.TypeDict | seldon_microservice/microservice.py:37-43 | each of the five tags selects its conversion, `FLOAT` and `DOUBLE` the same one; any other tag is the lookup failure |
| Microservice.ConvertParam | seldon_microservice/microservice.py:46-49 | succeeds exactly when the tag is known and its conversion of the value succeeds, and is then that conversion; an unknown tag fails with that tag, a failed conversion with the entry's name and kind |
| Microservice.ParseParameters | seldon_microservice/microservice.py:44-50 | the loop computes exactly `ParsedPrefix` over all entries |
| Microservice.ParsedKeysAndValues | seldon_microservice/microservice.py:44-50 | the parse succeeds exactly when every entry converts; the keys are then the entries' names, each holding the value of the last entry with that name |
| Microservice.FirstFailureReported | seldon_microservice/microservice.py:49 | the error is that of the first entry that does not convert |
| Microservice.FailureSticks | seldon_microservice/microservice.py:45-49 | once an entry has failed, later entries do not change the outcome |
| Microservice.FloatDoubleAlike | seldon_microservice/microservice.py:39-40 | replacing `FLOAT` by `DOUBLE` on an entry changes nothing |
| Microservice.AnnotationLineAccepted | seldon_microservice/microservice.py:59-63 | a line is accepted exactly when its right-stripped text has one `=`; the key is the text before it, without `=`, and the value is the text after it without its first and last characters |
| Microservice.LoadAnnotations | seldon_microservice/microservice.py:53-70 | no file gives the empty dictionary; otherwise the loop computes exactly `AnnotationsOf` the lines |
| Microservice.AnnotationKeys | seldon_microservice/microservice.py:61-65 | a key is present exactly when some accepted line has it |
| Microservice.AnnotationsLastWins | seldon_microservice/microservice.py:65 | each key holds the value of the last accepted line with that key |
| Microservice.RejectedLineIgnored | seldon_microservice/microservice.py:66-67 | a line without exactly one `=` changes nothing |
| Microservice.ExtractDebug | seldon_microservice/microservice.py:86-89 | debug is on exactly when `SELDON_DEBUG` is present and truthy; it is then removed and every other parameter kept; otherwise the parameters are unchanged |

## Findings

| source | as written | input that shows it | evidently intended | confidence | as-written member | corrected member |
|---|---|---|---|---|---|---|
| seldon_microservice/_packaging.py:73 | the tag-prefix class `[_-a-zA-Z]` is parsed with `_-a` as a range, so it holds only `_`, the backquote, `a`, `-`, `z` and the capitals | `rel-1.0-3-gabcdef0`: no match, so the version falls back to `0.0.0` | a class of `_`, `-` and all letters, giving version `1.0.post3+abcdef0` | medium; not executed | Packaging.PrefixClassAsWrittenRejects | Packaging.PrefixClassIntendedAccepts |

`Packaging.Match`, `VersionFromDescribe` and `GetVersion` take the reading of
the class as a parameter: `AsWritten` is the program, `Intended` the correction.
`Packaging.RelTagGetVersion` carries the example through `get_version` under both.

## Left out

- Process, file, network and console I/O:
  - `_call` and `Popen`, the `.version` file and `__init__.py` reads and writes, and the annotations file;
  - `_write_version`, `_write_version_file`, and the setuptools hooks `BuildPyCommand` and `SDistCommand`;
  - Flask's `extract_message`, `argparse`, `importlib`, `startServers` (multiprocessing) and server start-up in `main`.

  Their outcomes are parameters. `setup.py` has no logic.
- Logging and `print`. Among them is the "Removing line" message of `_write_version_into_init`: it is printed after the entry is set to None, so it shows `None`. This has no effect on the file written.
- `Packaging.GitDescribeTags`: the `except CalledProcessError` around `git update-index` can never fire, because `_call` is told not to raise. If git cannot be started, the `OSError` reaches `get_version` and gives `0.0.0`; this is what the model does. Decoding git's output as UTF-8 is not modelled.
- FlatBuffers byte layout: alignment, vtables, the 4-byte size prefix, string encoding and the generated accessors' byte arithmetic. The builder is modelled as a prepend-only vector builder, and tables as records of offsets.
- The byte-level encode/decode round trip is not stated. The encoder finishes a size-prefixed `SeldonRPC` (tester_flatbuffers.py:58), but the decoder reads a `SeldonMessage` root at offset 0 (tester_flatbuffers.py:63). `TesterFlatbuffers.SeldonRpcToNumpyArray` therefore takes the `SeldonMessage` record itself. The round trip is proved at message level in `TesterFlatbuffers.MessageRoundTrip`.
- `TesterFlatbuffers.SeldonRpcToNumpyArray`: the decoder's `Names(i)` returns bytes in the library; the model returns the strings.
- Floating point: element values are an abstract type `V`. `array.flatten()`, `ravel()` and `ValuesAsNumpy()` are the identity on the row-major values.
- Protobuf's int32 range for gRPC tensor shapes, and protobuf message internals (`WhichOneof`, `ListValue` storage).
- Old numpy's object arrays for ragged nested input: ragged input is an error (`RaggedNested`), as in current numpy.
- The number literals of a JSON request are kept as text. Only `sanity_check_request` inspects a request, and it looks only at the structure.
- `Packaging.Match`: `\d` is limited to ASCII digits, whereas Python's `re` also accepts other Unicode decimal digits.
- `Packaging.GitDescribeTags`: `stderr.lower()` is modelled on ASCII letters only (`Text.AsciiLower`).
- `Microservice.ConvertParam`: Python's `int`, `float`, `str` and `bool` coercions are an uninterpreted `convert`.
- `Microservice.LoadAnnotations`: an exception part-way through reading the file keeps the annotations read so far. The model treats the file as either readable in full or not at all.
