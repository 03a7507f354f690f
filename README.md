# s2e-env trace decoders in Dafny

This project models two commands of the s2e-env tooling of the Violet project. Both read what an S2E run leaves in its results directory.

- **`extract_testcase`** walks an S2E execution trace, which is a tree of trace entries whose fork entries hold the trace of each child state. For every TRACE_TESTCASE entry it builds a `TestCaseInTrace` holding one `TestCaseKeyValue` per symbolic solution. It then sorts the records of each test case by key and the test cases by state id. Finally it writes test case `i` to `testcase-%06d.json`.
  - Each key/value record carries derived fields: `num_bytes`, `value_bytes` (base64), `value_int` (`byte_array_to_int`), `value_hex` and `value_printable`.
- **`latency_trace`** reads `LatencyTracer.dat`, a sequence of 60-byte call records with layout `'=iQQQdQQd'`. It decodes one record per full 60-byte chunk and stops at end of file or at a short trailing chunk. It sorts the records by state id and writes `LatencyTracer.csv`: one header row, then one row per record.

## How the model is built

- **Bytes and formats.**
  - Bytes are integers in `[0, 256)`.
  - `struct` is modelled for the standard-size codes (module `StructFormat`). `calcsize`, `unpack` and its inverse `pack` are proved to round-trip.
  - Both `byte_array_to_int` and the latency record go through this model. This is why `'<l'` is 4 bytes wide, so `byte_array_to_int` raises `struct.error` on 5–8-byte values, just as the code does.
- **Python's list sort.** The classes define only `__gt__`, and Python's `list.sort` falls back to it, so the effective order is ascending and stable. The sort is modelled once, generically (`Sorting.SortBy`). It is proved sorted, a permutation, stable, idempotent and unique: any stable sorted permutation equals it. The unique result means the model does not depend on which algorithm Python uses.
- **Objects the code mutates become classes** with `modifies` clauses and are proved against specification functions on values:
  - `TestCaseInTrace` and `TestCasesInTrace` in `TestCases`;
  - `LatencyRecords` in `LatencyTrace`.
- **Loops become methods with loop invariants:**
  - the padding loop of `byte_array_to_int`;
  - the recursive walk of `extract_test_case` with its two nested loops;
  - the read loop of `parse_latency_trace_file`;
  - the CSV emission loop;
  - the file-numbering loop of `handle`.
- **Each `handle`** is a method proved equal to a specification function. Lemmas then state when it fails, why, where it writes and what.
  - The file system is reduced to the set of existing directories.
  - `extract_testcase` takes the parsed execution tree as input.
  - `latency_trace` takes the bytes of `LatencyTracer.dat`, or None when that file is missing.

## Model

| member | source | states |
|---|---|---|
| StructFormat.UnpackCodes | s2e_env/commands/latency_trace.py:54-56 | unpacking succeeds exactly when the data length equals the summed standard sizes of the codes, with one field per code |
| StructFormat.Unpack | s2e_env/commands/extract_testcase.py:127 | `struct.unpack` succeeds exactly when the data length equals `calcsize` of the format, with one field per code |
| StructFormat.EncodeField | s2e_env/commands/latency_trace.py:54 | a field that fits its code packs into the code's standard size and unpacks back to itself |
| StructFormat.PackCodes | s2e_env/commands/latency_trace.py:54-55 | packing fitting fields gives exactly `calcsize` bytes |
| StructFormat.UnpackPack | s2e_env/commands/latency_trace.py:56 | unpacking packed fields gives back the fields |
| StructFormat.PackUnpack | s2e_env/commands/latency_trace.py:56 | every unpacked field fits its code, and packing the unpacked fields gives back the bytes, so unpack is injective |
| StructFormat.DecodeFieldFits | s2e_env/commands/latency_trace.py:56 | one field decoded from its bytes fits its code and encodes back to those bytes |
| StructFormat.WideCodesSize | s2e_env/commands/latency_trace.py:54-55 | codes that are all 8 bytes wide take eight bytes each |
| Bytes.ToLE | s2e_env/commands/extract_testcase.py:127 | the little-endian bytes of a value below 256^n have length n and read back as the value |
| Bytes.ToSignedLE | s2e_env/commands/extract_testcase.py:127 | the two's-complement little-endian bytes of an in-range value read back as the value |
| Bytes.ToLEOfUnsigned | s2e_env/commands/extract_testcase.py:127 | writing out an unsigned little-endian reading gives the original bytes |
| Bytes.SignedLERoundTrip | s2e_env/commands/extract_testcase.py:127 | writing out a signed little-endian reading gives the original bytes |
| Bytes.UnsignedLEZeroPadded | s2e_env/commands/extract_testcase.py:124-125 | appending zero bytes leaves the unsigned little-endian value unchanged |
| Bytes.SignedLE | s2e_env/commands/extract_testcase.py:127 | a signed little-endian reading of n bytes lies in the two's-complement range of 8n bits |
| ByteValues.ByteArrayToInt | s2e_env/commands/extract_testcase.py:113-127 | the padding loop and unpack compute `IntValue`: 0 past eight bytes, the signed value of the zero-padded input up to four bytes, `struct.error` for five to eight bytes |
| ByteValues.UnpackOneCode | s2e_env/commands/extract_testcase.py:118-127 | a one-code format `'<' + code` has the code's size and unpacks a buffer of that size to its one field |
| ByteValues.IntValueRange | s2e_env/commands/extract_testcase.py:118-127 | every value `byte_array_to_int` returns is a signed 32-bit integer |
| ByteValues.IntValueShort | s2e_env/commands/extract_testcase.py:118-127 | below four bytes the result is the unsigned little-endian value of the input, since the sign byte is padding |
| ByteValues.IntValueFourBytes | s2e_env/commands/extract_testcase.py:118-127 | on four bytes the result is x exactly when x is a signed 32-bit integer whose little-endian bytes are the input |
| ByteValues.HexTokenRoundTrip | s2e_env/commands/extract_testcase.py:139 | each `0x`-prefixed two-digit token parses back to its byte |
| ByteValues.ValueHexLength | s2e_env/commands/extract_testcase.py:139 | `value_hex` is empty for an empty value and otherwise five characters per byte less one |
| ByteValues.ValueHexToken | s2e_env/commands/extract_testcase.py:139 | the i-th comma-separated token of `value_hex` is the i-th byte, with a comma after every token but the last |
| ByteValues.ValueHexRoundTrip | s2e_env/commands/extract_testcase.py:139 | `value_hex` parses back to the value bytes |
| ByteValues.ValuePrintable | s2e_env/commands/extract_testcase.py:140 | `value_printable` has one character per byte |
| ByteValues.ValuePrintableChars | s2e_env/commands/extract_testcase.py:140 | one character per byte: the byte's own character when that is printable, '.' when it is not |
| ByteValues.ValuePrintableUnchanged | s2e_env/commands/extract_testcase.py:140 | `value_printable` equals the value exactly when every byte is printable |
| ByteValues.ValuePrintableIdempotent | s2e_env/commands/extract_testcase.py:140 | applying the printable rendering to its own output changes nothing |
| ByteValues.ValueBytesIsStripped | s2e_env/commands/extract_testcase.py:136 | `value_bytes` is the line-wrapped base64 encoding with the surrounding whitespace stripped |
| ByteValues.ValueBytesRoundTrip | s2e_env/commands/extract_testcase.py:136 | `value_bytes` with its line breaks removed decodes back to the value |
| Base64.Encode | s2e_env/commands/extract_testcase.py:136 | the base64 encoding has four characters per started group of three bytes |
| Base64.EncodeLength | s2e_env/commands/extract_testcase.py:136 | the encoding of n bytes has 4 * ((n + 2) / 3) characters |
| Base64.EncodeChars | s2e_env/commands/extract_testcase.py:136 | every encoded character is in the base64 alphabet or is `=`, and a non-empty encoding starts with an alphabet character |
| Base64.DecodeEncode | s2e_env/commands/extract_testcase.py:136 | decoding the encoding of any byte string gives it back |
| Base64.EncodeAppend | s2e_env/commands/extract_testcase.py:136 | encoding splits at any multiple of three bytes |
| Base64.EncodeLinesJoined | s2e_env/commands/extract_testcase.py:136 | the codec's output, one line per 57 bytes each ending in a newline, is its lines joined by newlines plus one final newline |
| Base64.JoinedLinesContent | s2e_env/commands/extract_testcase.py:136 | removing the line breaks from the wrapped encoding gives the plain encoding |
| Base64.JoinedLinesEdges | s2e_env/commands/extract_testcase.py:136 | the wrapped encoding of a non-empty value starts and ends with an encoded character, so `strip` removes only the final newline |
| PyStrings.LeadEnd | s2e_env/commands/extract_testcase.py:136 | where `lstrip` starts: everything before it is whitespace and the character there is not |
| PyStrings.TrailStart | s2e_env/commands/extract_testcase.py:136 | where `rstrip` ends: everything after it is whitespace and the character before it is not |
| PyStrings.Strip | s2e_env/commands/extract_testcase.py:136 | `strip` keeps one contiguous piece of the input, removes only whitespace before and after it, and leaves no whitespace at either end |
| PyStrings.StripTrailingNewline | s2e_env/commands/extract_testcase.py:136 | stripping text that has no whitespace at its ends plus a newline gives the text back |
| PyStrings.LexLessTransitive | s2e_env/commands/extract_testcase.py:142-143 | string comparison of keys is transitive |
| PyStrings.LexLessConnected | s2e_env/commands/extract_testcase.py:142-143 | any two different keys are ordered one way or the other |
| PyStrings.LexLessIrreflexive | s2e_env/commands/extract_testcase.py:142-143 | no key is less than itself |
| Numerals.Numeral | s2e_env/commands/latency_trace.py:105-106 | a decimal or hex numeral is non-empty, uses only digits of its base, has a leading zero only for 0, and is one digit exactly for values below the base |
| Numerals.NumeralRoundTrip | s2e_env/commands/latency_trace.py:105-106 | a numeral reads back as its value |
| Numerals.NumeralLength | s2e_env/commands/extract_testcase.py:211 | a numeral has at most k digits exactly when the value is below base^k |
| Numerals.ZeroPad | s2e_env/commands/extract_testcase.py:211 | zero padding keeps the text as a suffix, fills only zeros before it and reaches the width |
| Numerals.ZeroPadValue | s2e_env/commands/extract_testcase.py:211 | zero padding does not change the value a numeral reads as |
| Numerals.FormatZeroPadded6 | s2e_env/commands/extract_testcase.py:211 | `%06d` reads back as its number and has six digits below one million |
| Numerals.HexRoundTrip | s2e_env/commands/latency_trace.py:105-106 | `hex(n)` reads back as n |
| Numerals.HexByte | s2e_env/commands/extract_testcase.py:139 | a byte's hex form has two digits and reads back as the byte |
| Sorting.SortByPermutation | s2e_env/commands/extract_testcase.py:48-51 | sorting keeps the same elements with the same multiplicities |
| Sorting.SortBySorted | s2e_env/commands/extract_testcase.py:48-51 | under a strict total order the sorted list is non-decreasing by key |
| Sorting.SortByStable | s2e_env/commands/extract_testcase.py:48-51 | the elements with each key keep their relative order |
| Sorting.SortByIdempotent | s2e_env/commands/extract_testcase.py:48-51 | sorting again changes nothing |
| Sorting.SortBySortedIdentity | s2e_env/commands/latency_trace.py:69-70 | an already sorted list is left as it is |
| Sorting.SortByUnique | s2e_env/commands/latency_trace.py:69-70 | any sorted list with the same elements per key in the same order is the sort, so every stable sort gives the same result |
| Sorting.SortedWithSameKeysEqual | s2e_env/commands/latency_trace.py:69-70 | two sorted lists with the same elements per key in the same order are equal |
| Sorting.SortByMap | s2e_env/commands/extract_testcase.py:48-51 | sorting commutes with a map that preserves keys, so sorting objects sorts what they hold |
| Sorting.IntLessIsStrictTotalOrder | s2e_env/commands/extract_testcase.py:86-87 | ordering by state id is a strict total order |
| TestCases.KeyValueOf | s2e_env/commands/extract_testcase.py:133-140 | building a `TestCaseKeyValue` succeeds exactly when the value is not five to eight bytes long, and it keeps the key and value |
| TestCases.NewKeyValue | s2e_env/commands/extract_testcase.py:133-140 | the constructor stores the integer `byte_array_to_int` computes, and fails where it raises |
| TestCases.KeyValueFields | s2e_env/commands/extract_testcase.py:133-140 | the dictionary of a record holds its key and length, base64 and hex renderings that decode back to the value, one printable character per byte, and the signed 32-bit `value_int` |
| TestCases.KeyValueJson | s2e_env/commands/extract_testcase.py:148-156 | the key/value dictionary reads back as its six fields in order |
| TestCases.KeyValuesJsonRoundTrip | s2e_env/commands/extract_testcase.py:110 | the list of key/value dictionaries reads back as the records' fields in order |
| TestCases.CaseJson | s2e_env/commands/extract_testcase.py:107-111 | a test case dictionary reads back as its state id and its records' fields |
| TestCases.CasesJson | s2e_env/commands/extract_testcase.py:71-72 | the list of test case dictionaries reads back as the test cases in order |
| TestCases.CasesJsonRoundTrip | s2e_env/commands/extract_testcase.py:71-72 | each list element reads back as its test case |
| TestCases.LexLessIsStrictTotalOrder | s2e_env/commands/extract_testcase.py:142-143 | ordering by key is a strict total order |
| TestCases.SortCasesSpec | s2e_env/commands/extract_testcase.py:48-51 | after `sort` the test cases ascend by state id, stably, with the same test cases (records sorted), and every test case's records ascend by key |
| TestCases.SortKeyValuesStable | s2e_env/commands/extract_testcase.py:50 | sorting a test case's records keeps the records of each key in their order |
| TestCases.SortKeyValuesIdempotent | s2e_env/commands/extract_testcase.py:50 | sorting records already sorted by key changes nothing |
| TestCases.SortCasesIdempotent | s2e_env/commands/extract_testcase.py:48-51 | sorting the test cases twice is the same as once |
| TestCases.SortViews | s2e_env/commands/extract_testcase.py:51 | sorting test case objects by state id sorts the test cases they hold |
| TestCases.SortedObjects | s2e_env/commands/extract_testcase.py:48-51 | objects whose records were sorted, sorted by state id, hold the sorted test cases |
| TestCases.TestCaseInTrace.constructor | s2e_env/commands/extract_testcase.py:79-81 | a new test case has the given state id and no records |
| TestCases.TestCaseInTrace.AddKeyValue | s2e_env/commands/extract_testcase.py:83-84 | `add_key_value` appends one record |
| TestCases.TestCaseInTrace.MakeJsonDict | s2e_env/commands/extract_testcase.py:107-111 | `make_json_dict` reads back as the object's state id and records |
| TestCases.TestCasesInTrace.constructor | s2e_env/commands/extract_testcase.py:42-43 | a new container holds no test cases |
| TestCases.TestCasesInTrace.AddTestCase | s2e_env/commands/extract_testcase.py:45-46 | `add_test_case` appends one test case |
| TestCases.TestCasesInTrace.Sort | s2e_env/commands/extract_testcase.py:48-51 | the in-place sort leaves the objects ordered by state id and the test cases they hold equal to `SortCases` of the old ones |
| ExtractTestCase.KeyValuesOf | s2e_env/commands/extract_testcase.py:178-180 | a test case entry's records exist exactly when every item's value is not five to eight bytes long, and there is one per item in order |
| ExtractTestCase.TraceLeavesPrefix | s2e_env/commands/extract_testcase.py:184-185 | the test case entries met earlier in a child's trace come first |
| ExtractTestCase.ChildrenLeavesPrefix | s2e_env/commands/extract_testcase.py:183-185 | the entries met up to a point in one child come first among those of all the children |
| ExtractTestCase.Collect | s2e_env/commands/extract_testcase.py:175-185 | the walk builds at most one test case per test case entry |
| ExtractTestCase.CollectAppend | s2e_env/commands/extract_testcase.py:175-185 | walking two runs of entries is walking the first, then the second if the first did not fail |
| ExtractTestCase.CollectSpec | s2e_env/commands/extract_testcase.py:175-185 | the walk succeeds exactly when every item of every test case entry is buildable, and then it builds one test case per entry with that entry's state id and records |
| ExtractTestCase.CollectStops | s2e_env/commands/extract_testcase.py:178-181 | a failed walk stops at the first entry with an unbuildable item, keeping the test cases built before it |
| ExtractTestCase.CollectStopped | s2e_env/commands/extract_testcase.py:183-185 | once the walk has failed, later entries change nothing |
| ExtractTestCase.CollectStep | s2e_env/commands/extract_testcase.py:183-185 | the test cases found after a successful run of entries and then more entries are those of the whole run |
| ExtractTestCase.BuildTestCase | s2e_env/commands/extract_testcase.py:177-180 | the new test case gets the entry's state id and one record per item in order, or fails where a record cannot be built |
| ExtractTestCase.ExtractTestCases | s2e_env/commands/extract_testcase.py:175-185 | `extract_test_case` appends exactly the test cases of the entries under the entry, under the nearest fork child's state id, leaves the earlier ones unchanged, and fails exactly when the walk does |
| ExtractTestCase.ExtractFork | s2e_env/commands/extract_testcase.py:182-185 | a fork entry appends the test cases of its children's traces, child by child, each under its child's state id |
| ExtractTestCase.ExtractChild | s2e_env/commands/extract_testcase.py:183-185 | the loop over one child's trace appends the test cases of its entries in order, under the child's state id |
| ExtractTestCase.ExtractAll | s2e_env/commands/extract_testcase.py:195-197 | walking the top-level entries in state 0 into a new container gives the test cases of the whole tree |
| ExtractTestCase.TestCaseFileName | s2e_env/commands/extract_testcase.py:211 | `testcase-%06d.json` reads back as its test id and is 20 characters long below one million |
| ExtractTestCase.TestCaseFiles | s2e_env/commands/extract_testcase.py:207-214 | one file per test case |
| ExtractTestCase.TestCaseFilesAppend | s2e_env/commands/extract_testcase.py:207-214 | numbering one more test case adds one file at the end, named by its position |
| ExtractTestCase.WriteFiles | s2e_env/commands/extract_testcase.py:207-214 | the `testid` loop writes file `i` for the i-th sorted test case |
| ExtractTestCase.Handle | s2e_env/commands/extract_testcase.py:187-215 | `handle` computes `HandleSpec`: the checks in order, the walk, the sort, the output directory and the files |
| ExtractTestCase.HandleErrors | s2e_env/commands/extract_testcase.py:188-206 | each error happens exactly when the checks before it pass and its own fails: missing results directory, empty trace, a five-to-eight-byte value, missing output directory |
| ExtractTestCase.HandleWrites | s2e_env/commands/extract_testcase.py:195-214 | on success it writes into the given output directory or the results directory, one file per test case entry, file `i` holding the i-th test case in stable state id order with records sorted by key |
| LatencyTrace.StructLenIsCalcSize | s2e_env/commands/latency_trace.py:54-55 | `calcsize('=iQQQdQQd')` is 60: an int32 and seven 8-byte fields, no padding |
| LatencyTrace.RecordFields | s2e_env/commands/latency_trace.py:81-90 | a record has one field per format code |
| LatencyTrace.RecordOfFields | s2e_env/commands/latency_trace.py:134-135 | a record built from unpacked fields holds exactly those fields |
| LatencyTrace.FitsInt32 | s2e_env/commands/latency_trace.py:54 | the `i` code holds exactly the signed 32-bit integers |
| LatencyTrace.FitsUnsigned64 | s2e_env/commands/latency_trace.py:54 | the `Q` code holds exactly the unsigned 64-bit integers |
| LatencyTrace.FitsDouble | s2e_env/commands/latency_trace.py:54 | the `d` code holds exactly the 8-byte doubles |
| LatencyTrace.ValidRecordFits | s2e_env/commands/latency_trace.py:54-56 | a record is in range exactly when its fields fit the format |
| LatencyTrace.EncodeRecord | s2e_env/commands/latency_trace.py:54-55 | an in-range record packs into 60 bytes |
| LatencyTrace.RecordOfFittingFields | s2e_env/commands/latency_trace.py:134-135 | fields that fit the format always make a record |
| LatencyTrace.DecodeRecordSpec | s2e_env/commands/latency_trace.py:134-135 | every 60-byte chunk decodes to an in-range record that packs back into the chunk |
| LatencyTrace.DecodeEncode | s2e_env/commands/latency_trace.py:134-135 | decoding a packed in-range record gives the record |
| LatencyTrace.Chunks | s2e_env/commands/latency_trace.py:124-133 | the file is cut into full 60-byte chunks, with fewer than 60 bytes left over |
| LatencyTrace.ChunksAt | s2e_env/commands/latency_trace.py:126 | chunk k is bytes 60k to 60k+60 of the file |
| LatencyTrace.ChunksFlatten | s2e_env/commands/latency_trace.py:124-133 | cutting concatenated 60-byte chunks gives them back |
| LatencyTrace.FlattenChunks | s2e_env/commands/latency_trace.py:124-133 | the chunks concatenate to a prefix of the file that is short by less than 60 bytes |
| LatencyTrace.DecodeChunksAt | s2e_env/commands/latency_trace.py:134-136 | record k is decoded from chunk k |
| LatencyTrace.EncodeChunksAt | s2e_env/commands/latency_trace.py:54-56 | chunk k of an encoding is the packing of record k |
| LatencyTrace.EncodeChunks | s2e_env/commands/latency_trace.py:54-56 | in-range records pack into one 60-byte chunk each |
| LatencyTrace.DecodeEncodeChunks | s2e_env/commands/latency_trace.py:134-136 | decoding packed records gives them back |
| LatencyTrace.DecodeChunksValid | s2e_env/commands/latency_trace.py:134-136 | every decoded record is in range |
| LatencyTrace.EncodeDecodeChunks | s2e_env/commands/latency_trace.py:134-136 | packing decoded chunks gives them back |
| LatencyTrace.DecodeAll | s2e_env/commands/latency_trace.py:121-137 | 60 bytes per record account for all of an n-byte file except fewer than 60 trailing bytes |
| LatencyTrace.EncodeAll | s2e_env/commands/latency_trace.py:54-56 | k in-range records make a 60k-byte file |
| LatencyTrace.DecodeAllCount | s2e_env/commands/latency_trace.py:124-136 | an n-byte file gives n / 60 records, none for an empty file |
| LatencyTrace.DecodeAllIndex | s2e_env/commands/latency_trace.py:124-136 | record k is decoded from bytes 60k to 60k+60, in file order |
| LatencyTrace.DecodeAllEncodeAll | s2e_env/commands/latency_trace.py:121-137 | a file written from in-range records decodes to those records |
| LatencyTrace.EncodeAllDecodeAll | s2e_env/commands/latency_trace.py:121-137 | the decoded records are in range and re-encode to the file without its short tail |
| LatencyTrace.LatencyRecords.constructor | s2e_env/commands/latency_trace.py:63-64 | a new container holds no records |
| LatencyTrace.LatencyRecords.AddRecord | s2e_env/commands/latency_trace.py:66-67 | `add_record` appends one record |
| LatencyTrace.LatencyRecords.Sort | s2e_env/commands/latency_trace.py:69-70 | `sort` leaves the records in `SortBy` state id order |
| LatencyTrace.SortRecordsSpec | s2e_env/commands/latency_trace.py:69-70 | sorted records ascend by state id, are a permutation, keep file order among equal state ids, and do not change when sorted again |
| LatencyTrace.ParseLatencyTraceFile | s2e_env/commands/latency_trace.py:121-137 | the read loop returns a new container holding the decoded records in file order, and reports a short tail exactly when the length is not a multiple of 60 |
| LatencyTrace.ReadStep | s2e_env/commands/latency_trace.py:126-136 | reading one more full chunk appends its decoded record |
| LatencyTrace.ReadEnd | s2e_env/commands/latency_trace.py:128-133 | at end of file or a short chunk, every record has been read |
| LatencyTrace.Remainder | s2e_env/commands/latency_trace.py:130-133 | a short tail exists exactly when the file length is not a multiple of 60 |
| LatencyTrace.CsvEntryRoundTrip | s2e_env/commands/latency_trace.py:100-107 | a CSV row has one cell per header column, and reads back as its record |
| LatencyTrace.CsvEntries | s2e_env/commands/latency_trace.py:160-164 | one data row per record |
| LatencyTrace.CsvEntriesAt | s2e_env/commands/latency_trace.py:164 | data row k is the entry of record k |
| LatencyTrace.WriteCsv | s2e_env/commands/latency_trace.py:157-164 | the emission loop writes the header before the first record, and then one row per record |
| LatencyTrace.CsvRowsHeader | s2e_env/commands/latency_trace.py:159-163 | the rows are the records plus one header, or nothing for no records, and the header is the first row and only there |
| LatencyTrace.CsvRowsRecords | s2e_env/commands/latency_trace.py:160-164 | row k + 1 reads back as record k |
| LatencyTrace.CsvRowAt | s2e_env/commands/latency_trace.py:164 | row k + 1 is the entry of record k |
| LatencyTrace.Handle | s2e_env/commands/latency_trace.py:139-165 | `handle` computes `LatencySpec`: the checks in order, the parse, the sort, the output directory and the rows |
| LatencyTrace.LatencyErrors | s2e_env/commands/latency_trace.py:140-155 | each error happens exactly when the checks before it pass and its own fails: missing results directory, missing trace file, missing output directory; a short trailing chunk is reported exactly when the file was parsed and its length is not a multiple of 60, even when the output directory check then fails |
| LatencyTrace.LatencyWrites | s2e_env/commands/latency_trace.py:149-164 | on success it writes into the given output directory or the results directory, n / 60 rows plus a header (none for fewer than 60 bytes), the header only first, and a short tail is reported |
| LatencyTrace.LatencyRows | s2e_env/commands/latency_trace.py:146-164 | the data rows read back as the file's records in stable ascending state id order, none lost or added |

## Left out

- Input and output are left out: opening files, `json.dump`, the CSV writer's quoting, `print`, the logger and argument parsing.
  - Output is modelled as the JSON value or the rows of cells that would be written.
  - The short-chunk log message becomes the `truncated` flag, carried by both outcomes: it is false when `handle` stops before parsing, and it reflects the parse when the output directory check fails afterwards.
- The file system is reduced to a set of existing directory names. `project_path` and `os.path.join` are left out, because they only build paths.
- `parse_execution_tree` and the protobuf trace types are not part of this model.
  - The execution tree is an input datatype with test case, fork and other entries.
  - The children of a fork are in the order `iteritems()` gives them, which is taken as a given sequence.
  - An empty tree models the "execution trace is empty" check.
  - The `path_ids` option is passed to the parser and is left out with it.
- The contents of `LatencyTracer.dat` are an input. The file is None when it is not a file.
- `'='` in `STRUCT_FMT` means native byte order; the model takes a little-endian host.
- The doubles `execution_time` and `clock_begin` are kept as their raw 8 bytes. Their `%f` and CSV rendering is left out.
- The `L` suffix that Python 2's `hex()` adds to longs is left out; the address cells are `hex` without it.
- `string.printable` is taken as ASCII 0x20 to 0x7E plus tab, newline, carriage return, vertical tab and form feed. Its locale dependence is left out.
- `__str__`, `__len__` and the hand-written iterator protocol of both modules are left out. The model traverses sequences directly.
- `make_json_dict` values are modelled as a small JSON datatype with members in insertion order. Indentation is not modelled.
- `extract_testcase` handle checks for an empty execution tree, not for zero test cases. A non-empty tree with no test case entries writes no files and succeeds. The code is followed here.
- Test case objects listed more than once in a container are not excluded. Their records are sorted twice, and the second sort changes nothing.
