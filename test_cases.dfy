/**
 * The records built while extracting test cases from an execution trace:
 * `TestCaseKeyValue` (one symbolic solution), `TestCaseInTrace` (the
 * solutions of one state) and `TestCasesInTrace` (every test case found),
 * their JSON dictionaries, and the sort applied before they are written.
 */
module TestCases {
  import opened Wrappers
  import opened Bytes
  import opened PyStrings
  import opened Sorting
  import opened ByteValues
  import Base64

  /**
   * A `TestCaseKeyValue`: the key, the concrete value and the integer
   * `byte_array_to_int` gave for it. The other fields the constructor stores
   * depend on the value alone and are the member functions below.
   */
  datatype KeyValue = KeyValue(key: string, value: seq<Byte>, valueInt: int)
  {
    /** `num_bytes`. */
    function NumBytes(): nat { |value| }

    /** `value_bytes`: the value in base64. */
    function ValueBytes(): string { ByteValues.ValueBytes(value) }

    /** `value_hex`: the value as comma-separated hex bytes. */
    function ValueHex(): string { ByteValues.ValueHex(value) }

    /** `value_printable`: the value with unprintable bytes as dots. */
    function ValuePrintable(): string { ByteValues.ValuePrintable(value) }
  }

  /**
   * `TestCaseKeyValue(key, value)`, or None where the constructor raises: the
   * `struct.error` of `byte_array_to_int` on a value of five to eight bytes.
   */
  function KeyValueOf(key: string, value: seq<Byte>): (r: Option<KeyValue>)
    ensures r.Some? <==> !(5 <= |value| <= 8)
    ensures r.Some? ==> r.value.key == key && r.value.value == value
  {
    match IntValue(value)
    case StructError => None
    case Value(v) => Some(KeyValue(key, value, v))
  }

  /** `TestCaseKeyValue.__init__`: the integer field comes from `byte_array_to_int`. */
  method NewKeyValue(key: string, value: seq<Byte>) returns (r: Option<KeyValue>)
    ensures r == KeyValueOf(key, value)
  {
    var valueInt := ByteArrayToInt(value);
    if valueInt.StructError? {
      return None;
    }
    r := Some(KeyValue(key, value, valueInt.v));
  }

  /**
   * What the fields of a key/value record say about its value: the base64 and
   * hex renderings give the bytes back, the printable rendering has one
   * printable character per byte, and the integer is a signed 32-bit one.
   */
  lemma KeyValueFields(key: string, value: seq<Byte>)
    requires KeyValueOf(key, value).Some?
    ensures var d := DictOf(KeyValueOf(key, value).value);
      && d.key == key
      && d.numBytes == |value|
      && Base64.Decode(Base64.RemoveNewlines(d.valueBytes)) == Some(value)
      && ParseValueHex(d.valueHex) == Some(value)
      && |d.valuePrintable| == |value|
      && (forall i :: 0 <= i < |value| ==> IsPrintable(d.valuePrintable[i]))
      && IntValue(value) == Value(d.valueInt)
      && -0x8000_0000 <= d.valueInt < 0x8000_0000
  {
    ValueBytesRoundTrip(value);
    ValueHexRoundTrip(value);
    forall i | 0 <= i < |value| ensures IsPrintable(ByteValues.ValuePrintable(value)[i]) {
      ValuePrintableChars(value, i);
    }
    IntValueRange(value);
  }

  /** A JSON value, with objects as their members in insertion order (an `OrderedDict`). */
  datatype Json =
    | JInt(i: int)
    | JString(s: string)
    | JArray(items: seq<Json>)
    | JObject(members: seq<(string, Json)>)

  /** A key/value dictionary as `make_json_dict` writes it and as it reads back. */
  datatype KeyValueDict = KeyValueDict(
    key: string,
    numBytes: int,
    valueBytes: string,
    valueInt: int,
    valueHex: string,
    valuePrintable: string)

  /** The six fields of a record, as its dictionary holds them. */
  function DictOf(kv: KeyValue): KeyValueDict
  {
    KeyValueDict(kv.key, kv.NumBytes(), kv.ValueBytes(), kv.valueInt, kv.ValueHex(), kv.ValuePrintable())
  }

  /** `TestCaseKeyValue.make_json_dict`. */
  function KeyValueJson(kv: KeyValue): (j: Json)
    ensures KeyValueFromJson(j) == Some(DictOf(kv))
  {
    var d := DictOf(kv);
    JObject([
      ("key", JString(d.key)),
      ("num_bytes", JInt(d.numBytes)),
      ("value_bytes", JString(d.valueBytes)),
      ("value_int", JInt(d.valueInt)),
      ("value_hex", JString(d.valueHex)),
      ("value_printable", JString(d.valuePrintable))])
  }

  /** Reads a key/value dictionary back: exactly the six members, in order, with the right kinds. */
  function KeyValueFromJson(j: Json): Option<KeyValueDict>
  {
    if j.JObject? && |j.members| == 6
      && j.members[0].0 == "key" && j.members[0].1.JString?
      && j.members[1].0 == "num_bytes" && j.members[1].1.JInt?
      && j.members[2].0 == "value_bytes" && j.members[2].1.JString?
      && j.members[3].0 == "value_int" && j.members[3].1.JInt?
      && j.members[4].0 == "value_hex" && j.members[4].1.JString?
      && j.members[5].0 == "value_printable" && j.members[5].1.JString?
    then
      Some(KeyValueDict(j.members[0].1.s, j.members[1].1.i, j.members[2].1.s,
        j.members[3].1.i, j.members[4].1.s, j.members[5].1.s))
    else None
  }

  /** Reads a list of key/value dictionaries back; None if one of them does not read. */
  function KeyValuesFromJson(items: seq<Json>): Option<seq<KeyValueDict>>
  {
    if items == [] then Some([])
    else match (KeyValueFromJson(items[0]), KeyValuesFromJson(items[1..]))
      case (Some(d), Some(rest)) => Some([d] + rest)
      case _ => None
  }

  /** The dictionaries of a list of records, in order. */
  function KeyValuesJson(kvs: seq<KeyValue>): (js: seq<Json>)
    ensures |js| == |kvs|
  {
    if kvs == [] then [] else [KeyValueJson(kvs[0])] + KeyValuesJson(kvs[1..])
  }

  /** The six fields of each record of a list, in order. */
  function DictsOf(kvs: seq<KeyValue>): (ds: seq<KeyValueDict>)
    ensures |ds| == |kvs|
  {
    if kvs == [] then [] else [DictOf(kvs[0])] + DictsOf(kvs[1..])
  }

  lemma {:induction false} KeyValuesJsonRoundTrip(kvs: seq<KeyValue>)
    ensures KeyValuesFromJson(KeyValuesJson(kvs)) == Some(DictsOf(kvs))
  {
    if kvs != [] {
      var items := KeyValuesJson(kvs);
      assert items[1..] == KeyValuesJson(kvs[1..]);
      KeyValuesJsonRoundTrip(kvs[1..]);
    }
  }

  /** The value a `TestCaseInTrace` holds: its state id and its key/value records. */
  datatype Case = Case(stateId: int, keyValues: seq<KeyValue>)

  /** A test case dictionary as it reads back. */
  datatype CaseDict = CaseDict(stateId: int, keyValues: seq<KeyValueDict>)

  /** The dictionary of a test case: its state id and its records' dictionaries. */
  function CaseDictOf(c: Case): CaseDict
  {
    CaseDict(c.stateId, DictsOf(c.keyValues))
  }

  /** `TestCaseInTrace.make_json_dict`. */
  function CaseJson(c: Case): (j: Json)
    ensures CaseFromJson(j) == Some(CaseDictOf(c))
  {
    KeyValuesJsonRoundTrip(c.keyValues);
    JObject([("state_id", JInt(c.stateId)), ("key_values", JArray(KeyValuesJson(c.keyValues)))])
  }

  /** Reads a test case dictionary back. */
  function CaseFromJson(j: Json): Option<CaseDict>
  {
    if j.JObject? && |j.members| == 2
      && j.members[0].0 == "state_id" && j.members[0].1.JInt?
      && j.members[1].0 == "key_values" && j.members[1].1.JArray?
    then
      match KeyValuesFromJson(j.members[1].1.items)
      case Some(ds) => Some(CaseDict(j.members[0].1.i, ds))
      case None => None
    else None
  }

  /** `TestCasesInTrace.make_json_dict`: the list of the test case dictionaries. */
  function CasesJson(cs: seq<Case>): (j: Json)
    ensures CasesFromJson(j) == Some(CaseDictsOf(cs))
  {
    CasesJsonRoundTrip(cs);
    JArray(CaseListJson(cs))
  }

  /** The dictionaries of a list of test cases, in order. */
  function CaseListJson(cs: seq<Case>): (js: seq<Json>)
    ensures |js| == |cs|
  {
    if cs == [] then [] else [CaseJson(cs[0])] + CaseListJson(cs[1..])
  }

  /** The dictionary of each test case of a list, in order. */
  function CaseDictsOf(cs: seq<Case>): (ds: seq<CaseDict>)
    ensures |ds| == |cs|
  {
    if cs == [] then [] else [CaseDictOf(cs[0])] + CaseDictsOf(cs[1..])
  }

  /** Reads a list of test case dictionaries back. */
  function CasesFromJson(j: Json): Option<seq<CaseDict>>
  {
    if j.JArray? then CaseListFromJson(j.items) else None
  }

  function CaseListFromJson(items: seq<Json>): Option<seq<CaseDict>>
  {
    if items == [] then Some([])
    else match (CaseFromJson(items[0]), CaseListFromJson(items[1..]))
      case (Some(c), Some(rest)) => Some([c] + rest)
      case _ => None
  }

  lemma {:induction false} CasesJsonRoundTrip(cs: seq<Case>)
    ensures CaseListFromJson(CaseListJson(cs)) == Some(CaseDictsOf(cs))
  {
    if cs != [] {
      var items := CaseListJson(cs);
      assert items[1..] == CaseListJson(cs[1..]);
      CasesJsonRoundTrip(cs[1..]);
    }
  }

  /** The sort key of a key/value record (`TestCaseKeyValue.__gt__` compares keys). */
  function KeyOf(kv: KeyValue): string { kv.key }

  /** The sort key of a test case (`TestCaseInTrace.__gt__` compares state ids). */
  function CaseStateId(c: Case): int { c.stateId }

  /** Python's `<` on strings is a strict total order. */
  lemma LexLessIsStrictTotalOrder()
    ensures StrictTotalOrder(LexLess)
  {
    forall a: string ensures !LexLess(a, a) {
      LexLessIrreflexive(a);
    }
    forall a: string, b: string, c: string | LexLess(a, b) && LexLess(b, c) ensures LexLess(a, c) {
      LexLessTransitive(a, b, c);
    }
    forall a: string, b: string | a != b ensures LexLess(a, b) || LexLess(b, a) {
      LexLessConnected(a, b);
    }
  }

  /** One test case after `key_values.sort()`. */
  function SortKeyValues(c: Case): Case
  {
    Case(c.stateId, SortBy(c.keyValues, KeyOf, LexLess))
  }

  /** The test cases as `TestCasesInTrace.sort` leaves them: each one's records sorted by key, then the cases by state id. */
  function SortCases(cs: seq<Case>): seq<Case>
  {
    SortBy(Map(cs, SortKeyValues), CaseStateId, IntLess)
  }

  /**
   * After the sort the test cases are in ascending state id order, cases with
   * the same state id keep their order of extraction, nothing is lost or added,
   * and within each case the records are in ascending key order, records with
   * the same key keeping their order.
   */
  lemma SortCasesSpec(cs: seq<Case>)
    ensures SortedBy(SortCases(cs), CaseStateId, IntLess)
    ensures multiset(SortCases(cs)) == multiset(Map(cs, SortKeyValues))
    ensures forall id :: WithKey(SortCases(cs), CaseStateId, id) == WithKey(Map(cs, SortKeyValues), CaseStateId, id)
    ensures forall i :: 0 <= i < |SortCases(cs)| ==> SortedBy(SortCases(cs)[i].keyValues, KeyOf, LexLess)
  {
    var sorted := Map(cs, SortKeyValues);
    IntLessIsStrictTotalOrder();
    LexLessIsStrictTotalOrder();
    SortBySorted(sorted, CaseStateId, IntLess);
    SortByPermutation(sorted, CaseStateId, IntLess);
    forall id ensures WithKey(SortCases(cs), CaseStateId, id) == WithKey(sorted, CaseStateId, id) {
      SortByStable(sorted, CaseStateId, IntLess, id);
    }
    forall i | 0 <= i < |SortCases(cs)| ensures SortedBy(SortCases(cs)[i].keyValues, KeyOf, LexLess) {
      var c := SortCases(cs)[i];
      SortByPermutation(sorted, CaseStateId, IntLess);
      assert c in multiset(sorted);
      var j :| 0 <= j < |sorted| && sorted[j] == c;
      SortBySorted(cs[j].keyValues, KeyOf, LexLess);
    }
  }

  /** A record's position among the records of its key is kept by the sort. */
  lemma SortKeyValuesStable(c: Case, key: string)
    ensures WithKey(SortKeyValues(c).keyValues, KeyOf, key) == WithKey(c.keyValues, KeyOf, key)
  {
    LexLessIsStrictTotalOrder();
    SortByStable(c.keyValues, KeyOf, LexLess, key);
  }

  /** Sorting sorted records changes nothing. */
  lemma SortKeyValuesIdempotent(kvs: seq<KeyValue>)
    ensures SortBy(SortBy(kvs, KeyOf, LexLess), KeyOf, LexLess) == SortBy(kvs, KeyOf, LexLess)
  {
    LexLessIsStrictTotalOrder();
    SortByIdempotent(kvs, KeyOf, LexLess);
  }

  /** Sorting records that are either `kvs` or `kvs` sorted gives `kvs` sorted. */
  lemma SortKeyValuesOnce(current: seq<KeyValue>, kvs: seq<KeyValue>)
    requires current == kvs || current == SortBy(kvs, KeyOf, LexLess)
    ensures SortBy(current, KeyOf, LexLess) == SortBy(kvs, KeyOf, LexLess)
  {
    SortKeyValuesIdempotent(kvs);
  }

  /** Sorting sorted test cases changes nothing. */
  lemma SortCasesIdempotent(cs: seq<Case>)
    ensures SortCases(SortCases(cs)) == SortCases(cs)
  {
    var sorted := Map(cs, SortKeyValues);
    IntLessIsStrictTotalOrder();
    LexLessIsStrictTotalOrder();
    SortByMap(sorted, SortKeyValues, CaseStateId, CaseStateId, IntLess);
    assert Map(sorted, SortKeyValues) == sorted by {
      forall i | 0 <= i < |sorted| ensures SortKeyValues(sorted[i]) == sorted[i] {
        SortByIdempotent(cs[i].keyValues, KeyOf, LexLess);
      }
    }
    SortByIdempotent(sorted, CaseStateId, IntLess);
  }

  /** `TestCaseInTrace`: a state id and the records added to it. */
  class TestCaseInTrace {
    const stateId: int
    var keyValues: seq<KeyValue>

    constructor(stateId: int)
      ensures this.stateId == stateId && keyValues == []
    {
      this.stateId := stateId;
      keyValues := [];
    }

    /** `add_key_value`: appends one record. */
    method AddKeyValue(kv: KeyValue)
      modifies this
      ensures keyValues == old(keyValues) + [kv]
    {
      keyValues := keyValues + [kv];
    }

    /** The test case this object currently holds, as a value. */
    function View(): (c: Case)
      reads this
      ensures c.stateId == stateId
    {
      Case(stateId, keyValues)
    }

    /** `make_json_dict`: the dictionary reads back as the test case's. */
    function MakeJsonDict(): (j: Json)
      reads this
      ensures CaseFromJson(j) == Some(CaseDictOf(View()))
    {
      CaseJson(View())
    }
  }

  /** The sort key of a test case object. */
  function StateIdOf(t: TestCaseInTrace): int { t.stateId }

  /** The test cases the objects of `ts` hold, in order. */
  ghost function Views(ts: seq<TestCaseInTrace>): (r: seq<Case>)
    reads ts
    ensures |r| == |ts|
  {
    seq(|ts|, i reads ts requires 0 <= i < |ts| => ts[i].View())
  }

  /** Objects whose records are the sorted records of `before` hold the test cases of `before` with sorted records. */
  lemma ViewsSortedKeyValues(ts: seq<TestCaseInTrace>, before: seq<Case>)
    requires |before| == |ts|
    requires forall j :: 0 <= j < |ts| ==> before[j].stateId == ts[j].stateId
    requires forall j :: 0 <= j < |ts| ==> ts[j].keyValues == SortBy(before[j].keyValues, KeyOf, LexLess)
    ensures Views(ts) == Map(before, SortKeyValues)
  {
    forall j | 0 <= j < |ts| ensures Views(ts)[j] == Map(before, SortKeyValues)[j] {
      assert Views(ts)[j] == ts[j].View() == Case(ts[j].stateId, ts[j].keyValues);
      assert Map(before, SortKeyValues)[j] == SortKeyValues(before[j]);
    }
  }

  /** Sorting test case objects by state id sorts the test cases they hold the same way. */
  lemma SortViews(objects: seq<TestCaseInTrace>)
    ensures Views(SortBy(objects, StateIdOf, IntLess)) == SortBy(Views(objects), CaseStateId, IntLess)
  {
    var m := map t | t in objects :: t.View();
    var view := (t: TestCaseInTrace) => if t in m then m[t] else Case(t.stateId, []);
    assert Map(objects, view) == Views(objects);
    SortByMap(objects, view, StateIdOf, CaseStateId, IntLess);
    var sorted := SortBy(objects, StateIdOf, IntLess);
    SortByPermutation(objects, StateIdOf, IntLess);
    forall j | 0 <= j < |sorted| ensures Views(sorted)[j] == Map(sorted, view)[j] {
      var t := sorted[j];
      assert t in multiset(objects);
      assert t in m && m[t] == t.View();
    }
  }

  /** Objects holding `before` with sorted records, sorted by state id, hold the sorted test cases of `before`. */
  lemma SortedObjects(ts: seq<TestCaseInTrace>, before: seq<Case>)
    requires |before| == |ts|
    requires forall j :: 0 <= j < |ts| ==> before[j].stateId == ts[j].stateId
    requires forall j :: 0 <= j < |ts| ==> ts[j].keyValues == SortBy(before[j].keyValues, KeyOf, LexLess)
    ensures Views(SortBy(ts, StateIdOf, IntLess)) == SortCases(before)
  {
    ViewsSortedKeyValues(ts, before);
    SortViews(ts);
  }

  /** `TestCasesInTrace`: every test case found in a trace, in the order found. */
  class TestCasesInTrace {
    var testCases: seq<TestCaseInTrace>

    constructor()
      ensures testCases == []
    {
      testCases := [];
    }

    /** `add_test_case`: appends one test case. */
    method AddTestCase(t: TestCaseInTrace)
      modifies this
      ensures testCases == old(testCases) + [t]
    {
      testCases := testCases + [t];
    }

    /**
     * `sort`: sorts the records of every test case by key, then the test
     * cases by state id. A test case object listed twice is sorted twice,
     * which changes nothing the second time.
     */
    method Sort()
      modifies this, testCases
      ensures testCases == SortBy(old(testCases), StateIdOf, IntLess)
      ensures Views(testCases) == SortCases(old(Views(testCases)))
    {
      var cases := testCases;
      ghost var before := Views(cases);
      ghost var done: set<TestCaseInTrace> := {};
      for i := 0 to |cases|
        invariant forall j :: 0 <= j < i ==> cases[j] in done
        invariant forall j :: 0 <= j < |cases| ==>
          cases[j].keyValues == if cases[j] in done then SortBy(before[j].keyValues, KeyOf, LexLess) else before[j].keyValues
      {
        var t := cases[i];
        SortKeyValuesOnce(t.keyValues, before[i].keyValues);
        t.keyValues := SortBy(t.keyValues, KeyOf, LexLess);
        done := done + {t};
      }
      SortedObjects(cases, before);
      testCases := SortBy(cases, StateIdOf, IntLess);
    }
  }
}
