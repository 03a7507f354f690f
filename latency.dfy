/**
 * The `latency_trace` command: it reads the binary latency trace that the
 * latency tracker plugin leaves in a results directory (a run of fixed-size
 * call records), sorts the records by state id and writes them as CSV rows.
 */
module LatencyTrace {
  import opened Wrappers
  import opened Bytes
  import opened StructFormat
  import opened Numerals
  import opened Sorting
  import opened CommandOptions

  const LATENCY_TRACE_FILE: string := "LatencyTracer.dat"
  const LATENCY_TRACE_CSV: string := "LatencyTracer.csv"

  /** `STRUCT_FMT`: a signed 32-bit state id, three unsigned 64-bit addresses, a double, two unsigned 64-bit ids, a double. */
  const STRUCT_FMT: string := "=iQQQdQQd"
  const STRUCT_CODES: string := "iQQQdQQd"
  /** `STRUCT_LEN`, which `StructLenIsCalcSize` shows is `struct.calcsize(STRUCT_FMT)`. */
  const STRUCT_LEN: nat := 60

  /** The seven 8-byte fields that follow the state id. */
  const WIDE_CODES: string := "QQQdQQd"

  /** `struct.calcsize(STRUCT_FMT)` is 60: the '=' prefix adds no padding between the 4-byte id and the 8-byte fields. */
  lemma StructLenIsCalcSize()
    ensures STRUCT_FMT[1..] == STRUCT_CODES
    ensures CalcSize(STRUCT_FMT) == Some(STRUCT_LEN)
  {
    assert STRUCT_FMT[1..] == STRUCT_CODES;
    assert forall j :: 0 <= j < |WIDE_CODES| ==> StandardSize(WIDE_CODES[j]) == Some(8);
    WideCodesSize(WIDE_CODES);
    assert STRUCT_CODES[0] == 'i' && STRUCT_CODES[1..] == WIDE_CODES;
    CodesSizeCons(STRUCT_CODES);
  }

  /**
   * One call record. The two doubles (`execution_time`, `clock_begin`) are
   * kept as their raw eight bytes.
   */
  datatype LatencyRecord = LatencyRecord(
    stateId: int,
    address: nat,
    retAddress: nat,
    callerAddress: nat,
    executionTime: seq<Byte>,
    activityId: nat,
    parentId: nat,
    clockBegin: seq<Byte>)

  /** The fields in the order of STRUCT_FMT. */
  function RecordFields(r: LatencyRecord): (fields: seq<Field>)
    ensures |fields| == |STRUCT_CODES|
  {
    [IntField(r.stateId), IntField(r.address), IntField(r.retAddress), IntField(r.callerAddress),
     FloatField(r.executionTime), IntField(r.activityId), IntField(r.parentId), FloatField(r.clockBegin)]
  }

  /** `LatencyRecord(*result)`: the record whose fields these are, if they have the shape of one. */
  function RecordOfFields(fields: seq<Field>): (r: Option<LatencyRecord>)
    ensures r.Some? ==> RecordFields(r.value) == fields
  {
    if && |fields| == 8
       && fields[0].IntField?
       && fields[1].IntField? && fields[1].n >= 0
       && fields[2].IntField? && fields[2].n >= 0
       && fields[3].IntField? && fields[3].n >= 0
       && fields[4].FloatField?
       && fields[5].IntField? && fields[5].n >= 0
       && fields[6].IntField? && fields[6].n >= 0
       && fields[7].FloatField?
    then
      var r := LatencyRecord(fields[0].n, fields[1].n, fields[2].n, fields[3].n,
                             fields[4].bits, fields[5].n, fields[6].n, fields[7].bits);
      assert RecordFields(r) == fields;
      Some(r)
    else None
  }

  /**
   * A record the tracker's layout can hold: a 32-bit state id, 64-bit
   * unsigned addresses and ids, and 8-byte doubles. `ValidRecordFits` shows
   * these are exactly the records whose fields `struct.pack(STRUCT_FMT, ...)`
   * accepts.
   */
  predicate ValidRecord(r: LatencyRecord)
  {
    && -0x8000_0000 <= r.stateId < 0x8000_0000
    && r.address < 0x1_0000_0000_0000_0000
    && r.retAddress < 0x1_0000_0000_0000_0000
    && r.callerAddress < 0x1_0000_0000_0000_0000
    && |r.executionTime| == 8
    && r.activityId < 0x1_0000_0000_0000_0000
    && r.parentId < 0x1_0000_0000_0000_0000
    && |r.clockBegin| == 8
  }

  lemma FitsInt32(f: Field)
    ensures Fits('i', f) <==> f.IntField? && -0x8000_0000 <= f.n < 0x8000_0000
  {
    assert Pow256(3) == 0x100_0000 by {
      assert Pow256(1) == 0x100;
      assert Pow256(2) == 0x1_0000;
    }
  }

  lemma FitsUnsigned64(f: Field)
    ensures Fits('Q', f) <==> f.IntField? && 0 <= f.n < 0x1_0000_0000_0000_0000
  {
    assert Pow256(8) == 0x1_0000_0000_0000_0000 by {
      assert Pow256(2) == 0x1_0000;
      assert Pow256(4) == 0x1_0000_0000;
      assert Pow256(6) == 0x1_0000_0000_0000;
    }
  }

  lemma FitsDouble(f: Field)
    ensures Fits('d', f) <==> f.FloatField? && |f.bits| == 8
  {
  }

  /** The ranges of a valid record are exactly what `struct.pack(STRUCT_FMT, ...)` accepts. */
  lemma ValidRecordFits(r: LatencyRecord)
    ensures ValidRecord(r) <==> AllFit(STRUCT_CODES, RecordFields(r))
  {
    var fields := RecordFields(r);
    FitsInt32(fields[0]);
    FitsUnsigned64(fields[1]);
    FitsUnsigned64(fields[2]);
    FitsUnsigned64(fields[3]);
    FitsDouble(fields[4]);
    FitsUnsigned64(fields[5]);
    FitsUnsigned64(fields[6]);
    FitsDouble(fields[7]);
    assert AllFit(STRUCT_CODES, fields) <==> forall i :: 0 <= i < 8 ==> Fits(STRUCT_CODES[i], fields[i]);
    assert STRUCT_CODES[0] == 'i' && STRUCT_CODES[4] == 'd' && STRUCT_CODES[7] == 'd';
    assert STRUCT_CODES[1] == STRUCT_CODES[2] == STRUCT_CODES[3] == STRUCT_CODES[5] == STRUCT_CODES[6] == 'Q';
  }

  /** The 60 bytes the tracker writes for a record. */
  function EncodeRecord(r: LatencyRecord): (chunk: seq<Byte>)
    requires ValidRecord(r)
    ensures |chunk| == STRUCT_LEN
  {
    StructLenIsCalcSize();
    ValidRecordFits(r);
    PackCodes(STRUCT_CODES, RecordFields(r))
  }

  /** Fields that fit the layout always make a record. */
  lemma RecordOfFittingFields(fields: seq<Field>)
    requires AllFit(STRUCT_CODES, fields)
    ensures RecordOfFields(fields).Some?
  {
    assert Fits(STRUCT_CODES[0], fields[0]) && Fits(STRUCT_CODES[1], fields[1]);
    assert Fits(STRUCT_CODES[2], fields[2]) && Fits(STRUCT_CODES[3], fields[3]);
    assert Fits(STRUCT_CODES[4], fields[4]) && Fits(STRUCT_CODES[5], fields[5]);
    assert Fits(STRUCT_CODES[6], fields[6]) && Fits(STRUCT_CODES[7], fields[7]);
  }

  /** `LatencyRecord(*STRUCT_UNPACK(data))` for a full chunk read from the file. */
  function DecodeRecord(chunk: seq<Byte>): LatencyRecord
    requires |chunk| == STRUCT_LEN
  {
    StructLenIsCalcSize();
    PackUnpack(STRUCT_CODES, chunk);
    RecordOfFittingFields(Unpack(STRUCT_FMT, chunk).value);
    RecordOfFields(Unpack(STRUCT_FMT, chunk).value).value
  }

  /** Every full chunk holds a valid record, and the record is what the tracker wrote as those bytes. */
  lemma DecodeRecordSpec(chunk: seq<Byte>)
    requires |chunk| == STRUCT_LEN
    ensures ValidRecord(DecodeRecord(chunk))
    ensures EncodeRecord(DecodeRecord(chunk)) == chunk
  {
    StructLenIsCalcSize();
    PackUnpack(STRUCT_CODES, chunk);
    var fields := UnpackCodes(STRUCT_CODES, chunk).value;
    assert Unpack(STRUCT_FMT, chunk).value == fields;
    RecordOfFittingFields(fields);
    var r := RecordOfFields(fields).value;
    assert DecodeRecord(chunk) == r;
    ValidRecordFits(r);
    assert ValidRecord(r);
    assert EncodeRecord(r) == PackCodes(STRUCT_CODES, fields);
  }

  /** Decoding the bytes of a valid record gives the record back. */
  lemma DecodeEncode(r: LatencyRecord)
    requires ValidRecord(r)
    ensures DecodeRecord(EncodeRecord(r)) == r
  {
    StructLenIsCalcSize();
    ValidRecordFits(r);
    UnpackPack(STRUCT_CODES, RecordFields(r));
    assert RecordOfFields(RecordFields(r)) == Some(r);
  }

  /**
   * The full chunks of STRUCT_LEN (60) bytes a trace file is read in, in
   * file order; a short tail is not a chunk.
   */
  function Chunks(data: seq<Byte>): (cs: seq<seq<Byte>>)
    ensures 60 * |cs| <= |data| < 60 * |cs| + 60
    ensures forall i :: 0 <= i < |cs| ==> |cs[i]| == STRUCT_LEN
  {
    if |data| < STRUCT_LEN then [] else [data[..STRUCT_LEN]] + Chunks(data[STRUCT_LEN..])
  }

  /** Chunks written one after the other. */
  function Flatten(cs: seq<seq<Byte>>): (data: seq<Byte>)
    ensures (forall i :: 0 <= i < |cs| ==> |cs[i]| == STRUCT_LEN) ==> |data| == 60 * |cs|
  {
    if cs == [] then [] else cs[0] + Flatten(cs[1..])
  }

  /** Chunk k of a file is its bytes [60k, 60k + 60). */
  lemma {:induction false} ChunksAt(data: seq<Byte>, k: nat)
    requires k < |Chunks(data)|
    ensures 60 * k + 60 <= |data| && Chunks(data)[k] == data[60 * k..60 * k + 60]
  {
    if k > 0 {
      var rest := data[STRUCT_LEN..];
      ChunksAt(rest, k - 1);
      var i := 60 * (k - 1);
      assert 60 * k == i + STRUCT_LEN;
      assert rest[i..i + STRUCT_LEN] == data[i + STRUCT_LEN..i + 2 * STRUCT_LEN];
    }
  }

  /** Cutting written chunks gives the chunks back. */
  lemma {:induction false} ChunksFlatten(cs: seq<seq<Byte>>)
    requires forall i :: 0 <= i < |cs| ==> |cs[i]| == STRUCT_LEN
    ensures Chunks(Flatten(cs)) == cs
  {
    if cs != [] {
      var data := Flatten(cs);
      ChunksFlatten(cs[1..]);
      assert data[..STRUCT_LEN] == cs[0];
      assert data[STRUCT_LEN..] == Flatten(cs[1..]);
      assert cs == [cs[0]] + cs[1..];
    }
  }

  /** Writing the chunks of a file gives the file but for a tail shorter than a chunk. */
  lemma {:induction false} FlattenChunks(data: seq<Byte>)
    ensures Flatten(Chunks(data)) <= data
    ensures |data| - |Flatten(Chunks(data))| < STRUCT_LEN
  {
    if |data| >= STRUCT_LEN {
      var rest := data[STRUCT_LEN..];
      FlattenChunks(rest);
      var cs := Chunks(data);
      assert cs[1..] == Chunks(rest);
      assert data == data[..STRUCT_LEN] + rest;
    }
  }

  /** The record of each chunk. */
  function DecodeChunks(cs: seq<seq<Byte>>): (rs: seq<LatencyRecord>)
    requires forall i :: 0 <= i < |cs| ==> |cs[i]| == STRUCT_LEN
    ensures |rs| == |cs|
  {
    if cs == [] then [] else [DecodeRecord(cs[0])] + DecodeChunks(cs[1..])
  }

  /** The bytes of each record. */
  function EncodeChunks(rs: seq<LatencyRecord>): (cs: seq<seq<Byte>>)
    requires forall i :: 0 <= i < |rs| ==> ValidRecord(rs[i])
    ensures |cs| == |rs|
    ensures forall i :: 0 <= i < |cs| ==> |cs[i]| == STRUCT_LEN
  {
    if rs == [] then [] else [EncodeRecord(rs[0])] + EncodeChunks(rs[1..])
  }

  lemma {:induction false} DecodeChunksAt(cs: seq<seq<Byte>>, k: nat)
    requires forall i :: 0 <= i < |cs| ==> |cs[i]| == STRUCT_LEN
    requires k < |cs|
    ensures DecodeChunks(cs)[k] == DecodeRecord(cs[k])
  {
    if k > 0 {
      DecodeChunksAt(cs[1..], k - 1);
    }
  }

  lemma {:induction false} EncodeChunksAt(rs: seq<LatencyRecord>, k: nat)
    requires forall i :: 0 <= i < |rs| ==> ValidRecord(rs[i])
    requires k < |rs|
    ensures EncodeChunks(rs)[k] == EncodeRecord(rs[k])
  {
    if k > 0 {
      EncodeChunksAt(rs[1..], k - 1);
    }
  }

  /** Decoding the bytes of valid records gives them back. */
  lemma DecodeEncodeChunks(rs: seq<LatencyRecord>)
    requires forall i :: 0 <= i < |rs| ==> ValidRecord(rs[i])
    ensures DecodeChunks(EncodeChunks(rs)) == rs
  {
    var decoded := DecodeChunks(EncodeChunks(rs));
    forall k | 0 <= k < |rs| ensures decoded[k] == rs[k] {
      DecodeEncodeChunksAt(rs, k);
    }
  }

  lemma DecodeEncodeChunksAt(rs: seq<LatencyRecord>, k: nat)
    requires forall i :: 0 <= i < |rs| ==> ValidRecord(rs[i])
    requires k < |rs|
    ensures DecodeChunks(EncodeChunks(rs))[k] == rs[k]
  {
    var cs := EncodeChunks(rs);
    DecodeChunksAt(cs, k);
    EncodeChunksAt(rs, k);
    DecodeEncode(rs[k]);
  }

  /** Every chunk holds a valid record. */
  lemma DecodeChunksValid(cs: seq<seq<Byte>>)
    requires forall i :: 0 <= i < |cs| ==> |cs[i]| == STRUCT_LEN
    ensures forall i :: 0 <= i < |cs| ==> ValidRecord(DecodeChunks(cs)[i])
  {
    forall k | 0 <= k < |cs| ensures ValidRecord(DecodeChunks(cs)[k]) {
      DecodeChunksAt(cs, k);
      DecodeRecordSpec(cs[k]);
    }
  }

  /** Encoding the records of chunks gives the chunks back. */
  lemma EncodeDecodeChunks(cs: seq<seq<Byte>>)
    requires forall i :: 0 <= i < |cs| ==> |cs[i]| == STRUCT_LEN
    ensures (DecodeChunksValid(cs); EncodeChunks(DecodeChunks(cs)) == cs)
  {
    DecodeChunksValid(cs);
    var rs := DecodeChunks(cs);
    forall k | 0 <= k < |cs| ensures EncodeChunks(rs)[k] == cs[k] {
      EncodeDecodeChunksAt(cs, k);
    }
  }

  lemma EncodeDecodeChunksAt(cs: seq<seq<Byte>>, k: nat)
    requires forall i :: 0 <= i < |cs| ==> |cs[i]| == STRUCT_LEN
    requires k < |cs|
    ensures (DecodeChunksValid(cs); EncodeChunks(DecodeChunks(cs))[k] == cs[k])
  {
    DecodeChunksValid(cs);
    var rs := DecodeChunks(cs);
    DecodeChunksAt(cs, k);
    EncodeChunksAt(rs, k);
    DecodeRecordSpec(cs[k]);
  }

  /** The records of a trace file, one per full chunk, in file order. */
  function DecodeAll(data: seq<Byte>): (rs: seq<LatencyRecord>)
    ensures 60 * |rs| <= |data| < 60 * |rs| + 60
  {
    DecodeChunks(Chunks(data))
  }

  /** The bytes the tracker writes for a run of records, one after the other. */
  function EncodeAll(rs: seq<LatencyRecord>): (data: seq<Byte>)
    requires forall i :: 0 <= i < |rs| ==> ValidRecord(rs[i])
    ensures |data| == 60 * |rs|
  {
    Flatten(EncodeChunks(rs))
  }

  /** A file of n bytes holds n / 60 records. */
  lemma DecodeAllCount(data: seq<Byte>)
    ensures |DecodeAll(data)| == |data| / STRUCT_LEN
  {
  }

  /** Record k of the file is the one decoded from its bytes [60k, 60k + 60). */
  lemma DecodeAllIndex(data: seq<Byte>, k: nat)
    requires 60 * k + 60 <= |data|
    ensures k < |DecodeAll(data)| && DecodeAll(data)[k] == DecodeRecord(data[60 * k..60 * k + 60])
  {
    ChunksAt(data, k);
    DecodeChunksAt(Chunks(data), k);
  }

  /** Reading back the bytes of a run of valid records gives the records, in order. */
  lemma DecodeAllEncodeAll(rs: seq<LatencyRecord>)
    requires forall i :: 0 <= i < |rs| ==> ValidRecord(rs[i])
    ensures DecodeAll(EncodeAll(rs)) == rs
  {
    ChunksFlatten(EncodeChunks(rs));
    DecodeEncodeChunks(rs);
  }

  /**
   * Decoding loses nothing but a short tail: every record read is valid, and
   * the file is the bytes of its records followed by fewer than 60 bytes.
   */
  lemma EncodeAllDecodeAll(data: seq<Byte>)
    ensures forall i :: 0 <= i < |DecodeAll(data)| ==> ValidRecord(DecodeAll(data)[i])
    ensures EncodeAll(DecodeAll(data)) <= data
    ensures |data| - |EncodeAll(DecodeAll(data))| < STRUCT_LEN
  {
    DecodeChunksValid(Chunks(data));
    EncodeDecodeChunks(Chunks(data));
    FlattenChunks(data);
  }

  /** The sort key of a record: `__gt__` compares state ids. */
  function RecordStateId(r: LatencyRecord): int { r.stateId }

  /** `LatencyRecords`: the records read from a trace file, in a list the command appends to and sorts in place. */
  class LatencyRecords {
    var records: seq<LatencyRecord>

    constructor ()
      ensures records == []
    {
      records := [];
    }

    /** `add_record`. */
    method AddRecord(record: LatencyRecord)
      modifies this
      ensures records == old(records) + [record]
    {
      records := records + [record];
    }

    /** `sort`: Python's stable list sort, comparing records by `__gt__`. */
    method Sort()
      modifies this
      ensures records == SortBy(old(records), RecordStateId, IntLess)
    {
      records := SortBy(records, RecordStateId, IntLess);
    }
  }

  /**
   * `sort` orders the records by ascending state id, keeps every record,
   * keeps the file order among records of the same state, and leaves a
   * sorted list as it is.
   */
  lemma SortRecordsSpec(rs: seq<LatencyRecord>)
    ensures SortedBy(SortBy(rs, RecordStateId, IntLess), RecordStateId, IntLess)
    ensures multiset(SortBy(rs, RecordStateId, IntLess)) == multiset(rs)
    ensures forall id :: WithKey(SortBy(rs, RecordStateId, IntLess), RecordStateId, id) == WithKey(rs, RecordStateId, id)
    ensures SortBy(SortBy(rs, RecordStateId, IntLess), RecordStateId, IntLess) == SortBy(rs, RecordStateId, IntLess)
  {
    IntLessIsStrictTotalOrder();
    SortBySorted(rs, RecordStateId, IntLess);
    SortByPermutation(rs, RecordStateId, IntLess);
    forall id ensures WithKey(SortBy(rs, RecordStateId, IntLess), RecordStateId, id) == WithKey(rs, RecordStateId, id) {
      SortByStable(rs, RecordStateId, IntLess, id);
    }
    SortByIdempotent(rs, RecordStateId, IntLess);
  }

  /**
   * `parse_latency_trace_file` over the bytes of the trace file: reads
   * STRUCT_LEN bytes at a time, stops at the end of the file, and stops
   * (reporting it, `truncated`) at a chunk that is too short.
   */
  method ParseLatencyTraceFile(data: seq<Byte>) returns (records: LatencyRecords, truncated: bool)
    ensures fresh(records)
    ensures records.records == DecodeAll(data)
    ensures truncated <==> |data| % STRUCT_LEN != 0
  {
    records := new LatencyRecords();
    truncated := false;
    var pos := 0;
    ghost var count := 0;
    ghost var all := DecodeAll(data);
    while true
      invariant 0 <= pos <= |data| && pos == 60 * count
      invariant records.records == all[..count]
      invariant !truncated
      decreases |data| - pos
    {
      var end := if pos + STRUCT_LEN <= |data| then pos + STRUCT_LEN else |data|;
      var chunk := data[pos..end];
      if chunk == [] {
        break;
      }
      if |chunk| != STRUCT_LEN {
        truncated := true;
        break;
      }
      var record := DecodeRecord(chunk);
      ReadStep(data, count, chunk);
      records.AddRecord(record);
      pos, count := pos + STRUCT_LEN, count + 1;
    }
    ReadEnd(data, count);
    Remainder(|data|, count);
  }

  /** The records read up to chunk k, then the one in chunk k. */
  lemma ReadStep(data: seq<Byte>, k: nat, chunk: seq<Byte>)
    requires 60 * k + 60 <= |data| && chunk == data[60 * k..60 * k + 60]
    ensures k < |DecodeAll(data)|
    ensures DecodeAll(data)[..k + 1] == DecodeAll(data)[..k] + [DecodeRecord(chunk)]
  {
    DecodeAllIndex(data, k);
    var rs := DecodeAll(data);
    assert rs[..k + 1] == rs[..k] + [rs[k]];
  }

  /** Once fewer than 60 bytes are left, every record has been read; a tail is left iff n is not a multiple of 60. */
  lemma ReadEnd(data: seq<Byte>, count: nat)
    requires 60 * count <= |data| < 60 * count + 60
    ensures DecodeAll(data)[..count] == DecodeAll(data)
  {
    assert |DecodeAll(data)| == count;
  }

  lemma Remainder(n: nat, count: nat)
    requires 60 * count <= n < 60 * count + 60
    ensures n % STRUCT_LEN != 0 <==> 60 * count != n
  {
  }

  /** A CSV cell as `csv.writer` receives it: an integer, a string, or a double (kept as its raw bytes). */
  datatype Cell = IntCell(i: int) | TextCell(text: string) | FloatCell(bits: seq<Byte>)

  /** `csv_header`: the column names, one per field of the record. */
  const CSV_HEADER: seq<Cell> :=
    [TextCell("state_id"), TextCell("address"), TextCell("return_address"), TextCell("caller_address"),
     TextCell("execution_time"), TextCell("activity_id"), TextCell("parent_id"), TextCell("clock_begin")]

  /** `csv_entry`: the record's fields in header order, the three addresses in `hex`. */
  function CsvEntry(r: LatencyRecord): seq<Cell>
  {
    [IntCell(r.stateId), TextCell(Hex(r.address)), TextCell(Hex(r.retAddress)), TextCell(Hex(r.callerAddress)),
     FloatCell(r.executionTime), IntCell(r.activityId), IntCell(r.parentId), FloatCell(r.clockBegin)]
  }

  /** Reads a record back from a CSV row. */
  function RecordOfCsvEntry(row: seq<Cell>): Option<LatencyRecord>
  {
    if && |row| == 8
       && row[0].IntCell?
       && row[1].TextCell? && ParseHex(row[1].text).Some?
       && row[2].TextCell? && ParseHex(row[2].text).Some?
       && row[3].TextCell? && ParseHex(row[3].text).Some?
       && row[4].FloatCell?
       && row[5].IntCell? && row[5].i >= 0
       && row[6].IntCell? && row[6].i >= 0
       && row[7].FloatCell?
    then Some(LatencyRecord(row[0].i, ParseHex(row[1].text).value, ParseHex(row[2].text).value,
                            ParseHex(row[3].text).value, row[4].bits, row[5].i, row[6].i, row[7].bits))
    else None
  }

  /** A row has one cell per column, and reads back as the record it was written for. */
  lemma CsvEntryRoundTrip(r: LatencyRecord)
    ensures |CsvEntry(r)| == |CSV_HEADER|
    ensures RecordOfCsvEntry(CsvEntry(r)) == Some(r)
  {
    HexRoundTrip(r.address);
    HexRoundTrip(r.retAddress);
    HexRoundTrip(r.callerAddress);
  }

  /** One row per record, in order. */
  function CsvEntries(rs: seq<LatencyRecord>): (rows: seq<seq<Cell>>)
    ensures |rows| == |rs|
  {
    if rs == [] then [] else CsvEntries(rs[..|rs| - 1]) + [CsvEntry(rs[|rs| - 1])]
  }

  lemma {:induction false} CsvEntriesAt(rs: seq<LatencyRecord>, k: nat)
    requires k < |rs|
    ensures CsvEntries(rs)[k] == CsvEntry(rs[k])
  {
    if k < |rs| - 1 {
      CsvEntriesAt(rs[..|rs| - 1], k);
    }
  }

  /** The rows written for a list of records: the header before the first record, nothing for no record. */
  function CsvRows(rs: seq<LatencyRecord>): seq<seq<Cell>>
  {
    if rs == [] then [] else [CSV_HEADER] + CsvEntries(rs)
  }

  /** The loop of `handle` that writes the rows: the header once, just before the first record's row. */
  method WriteCsv(rs: seq<LatencyRecord>) returns (rows: seq<seq<Cell>>)
    ensures rows == CsvRows(rs)
  {
    rows := [];
    var header: Option<seq<Cell>> := None;
    for k := 0 to |rs|
      invariant header.Some? <==> k > 0
      invariant rows == CsvRows(rs[..k])
    {
      if header.None? {
        header := Some(CSV_HEADER);
        rows := rows + [header.value];
      }
      assert rs[..k + 1][..k] == rs[..k];
      rows := rows + [CsvEntry(rs[k])];
    }
    assert rs[..|rs|] == rs;
  }

  /**
   * The header of the CSV: no rows for no records; otherwise the header as
   * the first row and nowhere else, then one row per record.
   */
  lemma CsvRowsHeader(rs: seq<LatencyRecord>)
    ensures |CsvRows(rs)| == if rs == [] then 0 else |rs| + 1
    ensures forall j :: 0 <= j < |CsvRows(rs)| ==> (CsvRows(rs)[j] == CSV_HEADER <==> j == 0)
  {
    var rows := CsvRows(rs);
    forall j | 0 <= j < |rows| ensures rows[j] == CSV_HEADER <==> j == 0 {
      if j > 0 {
        CsvEntriesAt(rs, j - 1);
        assert rows[j][0] == IntCell(rs[j - 1].stateId);
      }
    }
  }

  /** The rows after the header read back as the records, in order. */
  lemma CsvRowsRecords(rs: seq<LatencyRecord>)
    ensures |CsvRows(rs)| == if rs == [] then 0 else |rs| + 1
    ensures forall k :: 0 <= k < |rs| ==> RecordOfCsvEntry(CsvRows(rs)[k + 1]) == Some(rs[k])
  {
    forall k | 0 <= k < |rs| ensures RecordOfCsvEntry(CsvRows(rs)[k + 1]) == Some(rs[k]) {
      CsvRowAt(rs, k);
      CsvEntryRoundTrip(rs[k]);
    }
  }

  /** Row k + 1 is the row of record k. */
  lemma CsvRowAt(rs: seq<LatencyRecord>, k: nat)
    requires k < |rs|
    ensures k + 1 < |CsvRows(rs)| && CsvRows(rs)[k + 1] == CsvEntry(rs[k])
  {
    CsvEntriesAt(rs, k);
    assert CsvRows(rs) == [CSV_HEADER] + CsvEntries(rs);
  }

  /** Why `handle` stops before writing the CSV. */
  datatype LatencyError =
    | ResultsDirMissing   // the results directory does not exist
    | TraceFileMissing    // LatencyTracer.dat is not a file in it
    | OutdirMissing       // the given output directory does not exist

  /**
   * What `handle` does: the directory in which it writes LatencyTracer.csv
   * and the rows of that file, or why it stops; in both cases, whether the
   * parse reported a short trailing chunk (the trace file is parsed before
   * the output directory is checked).
   */
  datatype LatencyOutcome =
    | CsvWritten(outdir: string, rows: seq<seq<Cell>>, truncated: bool)
    | Failed(error: LatencyError, truncated: bool)

  /**
   * `handle`, given the existing directories `dirs` and the contents of
   * LatencyTracer.dat in the results directory, if that is a file.
   */
  function LatencySpec(resultsDir: string, dirs: set<string>, traceFile: Option<seq<Byte>>, outdir: Option<string>): LatencyOutcome
  {
    if resultsDir !in dirs then Failed(ResultsDirMissing, false)
    else if traceFile.None? then Failed(TraceFileMissing, false)
    else if OutdirGiven(outdir) && outdir.value !in dirs then Failed(OutdirMissing, |traceFile.value| % STRUCT_LEN != 0)
    else CsvWritten(if OutdirGiven(outdir) then outdir.value else resultsDir,
                    CsvRows(SortBy(DecodeAll(traceFile.value), RecordStateId, IntLess)),
                    |traceFile.value| % STRUCT_LEN != 0)
  }

  /** `handle`: checks the inputs, parses and sorts the records, picks the output directory and writes the rows. */
  method Handle(resultsDir: string, dirs: set<string>, traceFile: Option<seq<Byte>>, outdir: Option<string>) returns (r: LatencyOutcome)
    ensures r == LatencySpec(resultsDir, dirs, traceFile, outdir)
  {
    if resultsDir !in dirs {
      return Failed(ResultsDirMissing, false);
    }
    if traceFile.None? {
      return Failed(TraceFileMissing, false);
    }
    var records, truncated := ParseLatencyTraceFile(traceFile.value);
    records.Sort();
    var out := resultsDir;
    if OutdirGiven(outdir) {
      if outdir.value !in dirs {
        return Failed(OutdirMissing, truncated);
      }
      out := outdir.value;
    }
    var rows := WriteCsv(records.records);
    return CsvWritten(out, rows, truncated);
  }

  /**
   * When `handle` stops, and why: each error exactly when the checks before
   * it pass and its own fails. A short trailing chunk is reported exactly
   * when the trace file was parsed, which happens once the first two checks
   * pass, and its length is not a multiple of 60.
   */
  lemma LatencyErrors(resultsDir: string, dirs: set<string>, traceFile: Option<seq<Byte>>, outdir: Option<string>)
    ensures var r := LatencySpec(resultsDir, dirs, traceFile, outdir);
      && (r.Failed? && r.error == ResultsDirMissing <==> resultsDir !in dirs)
      && (r.Failed? && r.error == TraceFileMissing <==> resultsDir in dirs && traceFile.None?)
      && (r.Failed? && r.error == OutdirMissing <==> resultsDir in dirs && traceFile.Some? && OutdirGiven(outdir) && outdir.value !in dirs)
      && (r.CsvWritten? <==> resultsDir in dirs && traceFile.Some? && (OutdirGiven(outdir) ==> outdir.value in dirs))
      && (r.truncated <==> resultsDir in dirs && traceFile.Some? && |traceFile.value| % STRUCT_LEN != 0)
  {
  }

  /**
   * Where `handle` writes and how much: into the given output directory, or
   * the results directory when none is given; a header and one row per full
   * record of the trace file, the header first and only there; a short tail
   * is reported.
   */
  lemma LatencyWrites(resultsDir: string, dirs: set<string>, traceFile: Option<seq<Byte>>, outdir: Option<string>)
    requires LatencySpec(resultsDir, dirs, traceFile, outdir).CsvWritten?
    ensures var r := LatencySpec(resultsDir, dirs, traceFile, outdir);
      var data := traceFile.value;
      && r.outdir == (if OutdirGiven(outdir) then outdir.value else resultsDir)
      && r.outdir in dirs
      && |r.rows| == (if |data| < STRUCT_LEN then 0 else |data| / STRUCT_LEN + 1)
      && (forall j :: 0 <= j < |r.rows| ==> (r.rows[j] == CSV_HEADER <==> j == 0))
      && (r.truncated <==> |data| % STRUCT_LEN != 0)
  {
    var found := DecodeAll(traceFile.value);
    DecodeAllCount(traceFile.value);
    SortRecordsSpec(found);
    CsvRowsHeader(SortBy(found, RecordStateId, IntLess));
  }

  /**
   * What the rows after the header hold: the records of the trace file in
   * ascending state id order, file order among equal state ids, none lost
   * or added; each row reads back as its record.
   */
  lemma LatencyRows(resultsDir: string, dirs: set<string>, traceFile: Option<seq<Byte>>, outdir: Option<string>)
    requires LatencySpec(resultsDir, dirs, traceFile, outdir).CsvWritten?
    ensures var r := LatencySpec(resultsDir, dirs, traceFile, outdir);
      var found := DecodeAll(traceFile.value);
      var sorted := SortBy(found, RecordStateId, IntLess);
      && (forall k :: 0 <= k < |sorted| ==> k + 1 < |r.rows| && RecordOfCsvEntry(r.rows[k + 1]) == Some(sorted[k]))
      && SortedBy(sorted, RecordStateId, IntLess)
      && multiset(sorted) == multiset(found)
      && (forall id :: WithKey(sorted, RecordStateId, id) == WithKey(found, RecordStateId, id))
  {
    var found := DecodeAll(traceFile.value);
    SortRecordsSpec(found);
    CsvRowsRecords(SortBy(found, RecordStateId, IntLess));
  }
}
