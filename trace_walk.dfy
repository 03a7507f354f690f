/**
 * The `extract_testcase` command: walking an execution trace for its
 * TRACE_TESTCASE entries (`extract_test_case`), and the command itself
 * (`handle`), which sorts what it found and writes one JSON file per test
 * case.
 */
module ExtractTestCase {
  import opened Wrappers
  import opened Bytes
  import opened Sorting
  import opened Numerals
  import opened ByteValues
  import opened TestCases
  import opened PyStrings
  import opened CommandOptions

  /** One entry of a TRACE_TESTCASE item's `items`: a key and the bytes of its concrete value. */
  datatype RawItem = RawItem(key: string, value: seq<Byte>)

  /** A trace entry (a header and its item), as far as extraction looks at it. */
  datatype Entry =
    | TestCaseEntry(items: seq<RawItem>)
    | ForkEntry(children: seq<ForkChild>)
    | OtherEntry

  /** One child of a fork: the state id of the child state and the trace that follows in it. */
  datatype ForkChild = ForkChild(stateId: int, trace: seq<Entry>)

  /** A TRACE_TESTCASE entry met by the walk, with the state id it is filed under. */
  datatype Leaf = Leaf(stateId: int, items: seq<RawItem>)


  /**
   * The test case entries under `e`, in the order the walk meets them, for
   * an entry met in state `stateId`: a test case entry is one, a fork
   * entry gives those of its children's traces in order, each under the
   * child's state id, and any other entry gives none.
   */
  function EntryLeaves(stateId: int, e: Entry): seq<Leaf>
    decreases e, 2, 0
  {
    match e
    case TestCaseEntry(items) => [Leaf(stateId, items)]
    case ForkEntry(children) => ChildrenLeaves(e, |children|)
    case OtherEntry => []
  }

  /** The test case entries of the traces of the first `k` children of fork entry `e`, child by child. */
  function ChildrenLeaves(e: Entry, k: nat): seq<Leaf>
    requires e.ForkEntry? && k <= |e.children|
    decreases e, 1, k
  {
    if k == 0 then []
    else ChildrenLeaves(e, k - 1) + TraceLeaves(e, k - 1, |e.children[k - 1].trace|)
  }

  /** The test case entries of the first `m` entries of child `k`'s trace, under the child's state id. */
  function TraceLeaves(e: Entry, k: nat, m: nat): seq<Leaf>
    requires e.ForkEntry? && k < |e.children| && m <= |e.children[k].trace|
    decreases e, 0, m
  {
    if m == 0 then []
    else
      var child := e.children[k];
      assert child.trace[m - 1] < e by {
        assert child in e.children;
      }
      TraceLeaves(e, k, m - 1) + EntryLeaves(child.stateId, child.trace[m - 1])
  }

  /** The execution tree as a fork with one child in state 0: the walk of its top-level entries. */
  function Root(tree: seq<Entry>): Entry
  {
    ForkEntry([ForkChild(0, tree)])
  }

  /** The test case entries of the first `m` top-level entries of the execution tree. */
  function TreeLeaves(tree: seq<Entry>, m: nat): seq<Leaf>
    requires m <= |tree|
  {
    TraceLeaves(Root(tree), 0, m)
  }

  /** Leaves met earlier in a child's trace come first in the leaves met later. */
  lemma {:induction false} TraceLeavesPrefix(e: Entry, k: nat, m: nat, m': nat)
    requires e.ForkEntry? && k < |e.children| && m <= m' <= |e.children[k].trace|
    ensures TraceLeaves(e, k, m) <= TraceLeaves(e, k, m')
    decreases m' - m
  {
    if m < m' {
      TraceLeavesPrefix(e, k, m, m' - 1);
      PrefixExtend(TraceLeaves(e, k, m), TraceLeaves(e, k, m' - 1),
        EntryLeaves(e.children[k].stateId, e.children[k].trace[m' - 1]));
    }
  }

  /** The leaves met up to entry `m` of child `k` come first in the leaves of the first `n` children. */
  lemma {:induction false} ChildrenLeavesPrefix(e: Entry, k: nat, m: nat, n: nat)
    requires e.ForkEntry? && k < n <= |e.children| && m <= |e.children[k].trace|
    ensures ChildrenLeaves(e, k) + TraceLeaves(e, k, m) <= ChildrenLeaves(e, n)
    decreases n
  {
    var done := ChildrenLeaves(e, k) + TraceLeaves(e, k, m);
    if n == k + 1 {
      TraceLeavesPrefix(e, k, m, |e.children[k].trace|);
      assert done == ChildrenLeaves(e, k) + TraceLeaves(e, k, m);
      var full := TraceLeaves(e, k, |e.children[k].trace|);
      assert full[..|TraceLeaves(e, k, m)|] == TraceLeaves(e, k, m);
      assert (ChildrenLeaves(e, k) + full)[..|done|] == done;
    } else {
      ChildrenLeavesPrefix(e, k, m, n - 1);
      PrefixExtend(done, ChildrenLeaves(e, n - 1), TraceLeaves(e, n - 1, |e.children[n - 1].trace|));
    }
  }

  /** A prefix of `b` is a prefix of `b + c`. */
  lemma PrefixExtend<T>(a: seq<T>, b: seq<T>, c: seq<T>)
    requires a <= b
    ensures a <= b + c
  {
    assert (b + c)[..|a|] == b[..|a|];
  }

  /** A record can be built for an item exactly when its value is not five to eight bytes long. */
  predicate ItemOk(item: RawItem)
  {
    !(5 <= |item.value| <= 8)
  }

  /**
   * The records of a test case entry's items, one per item in order, or None
   * when the record of some item cannot be built.
   */
  function KeyValuesOf(items: seq<RawItem>): (r: Option<seq<KeyValue>>)
    ensures r.Some? <==> forall i :: 0 <= i < |items| ==> ItemOk(items[i])
    ensures r.Some? ==> |r.value| == |items| && forall i :: 0 <= i < |items| ==>
      KeyValueOf(items[i].key, items[i].value) == Some(r.value[i])
  {
    if forall i :: 0 <= i < |items| ==> ItemOk(items[i]) then
      Some(seq(|items|, i requires 0 <= i < |items| => KeyValueOf(items[i].key, items[i].value).value))
    else None
  }

  /** The test cases built from the leaves, and whether the walk got past all of them. */
  datatype Collected = Collected(cases: seq<Case>, ok: bool)

  /**
   * The test cases built from `leaves` in order; the first leaf whose records
   * cannot be built stops the walk, and the test cases before it are kept.
   */
  function Collect(leaves: seq<Leaf>): (r: Collected)
    ensures |r.cases| <= |leaves|
  {
    if leaves == [] then Collected([], true)
    else
      var prev := Collect(leaves[..|leaves| - 1]);
      var last := leaves[|leaves| - 1];
      if !prev.ok then prev
      else match KeyValuesOf(last.items)
        case None => Collected(prev.cases, false)
        case Some(kvs) => Collected(prev.cases + [Case(last.stateId, kvs)], true)
  }

  /** Walking `a + b` walks `a`, then, if it got past `a`, walks `b`. */
  lemma {:induction false} CollectAppend(a: seq<Leaf>, b: seq<Leaf>)
    ensures Collect(a + b) == if Collect(a).ok then Collected(Collect(a).cases + Collect(b).cases, Collect(b).ok) else Collect(a)
    decreases |b|
  {
    if b == [] {
      assert a + b == a;
    } else {
      var b' := b[..|b| - 1];
      assert (a + b)[..|a + b| - 1] == a + b';
      assert (a + b)[|a + b| - 1] == b[|b| - 1];
      CollectAppend(a, b');
      if Collect(a).ok && Collect(b').ok {
        assert Collect(a).cases + Collect(b').cases + [Case(b[|b| - 1].stateId, [])] ==
          Collect(a).cases + (Collect(b').cases + [Case(b[|b| - 1].stateId, [])]);
        var kvs := KeyValuesOf(b[|b| - 1].items);
        if kvs.Some? {
          assert Collect(a).cases + Collect(b').cases + [Case(b[|b| - 1].stateId, kvs.value)] ==
            Collect(a).cases + (Collect(b').cases + [Case(b[|b| - 1].stateId, kvs.value)]);
        }
      }
    }
  }

  /** Every leaf's items are fine. */
  predicate AllOk(leaves: seq<Leaf>)
  {
    forall l, i :: 0 <= l < |leaves| && 0 <= i < |leaves[l].items| ==> ItemOk(leaves[l].items[i])
  }

  /**
   * The walk gets past every leaf exactly when every item is fine, and then it
   * builds one test case per leaf, with the leaf's state id and one record per item.
   */
  lemma {:induction false} CollectSpec(leaves: seq<Leaf>)
    ensures Collect(leaves).ok <==> AllOk(leaves)
    ensures Collect(leaves).ok ==> |Collect(leaves).cases| == |leaves|
    ensures Collect(leaves).ok ==> forall l :: 0 <= l < |leaves| ==>
      Collect(leaves).cases[l] == Case(leaves[l].stateId, KeyValuesOf(leaves[l].items).value)
  {
    if leaves != [] {
      var init := leaves[..|leaves| - 1];
      var last := leaves[|leaves| - 1];
      CollectSpec(init);
      assert forall l :: 0 <= l < |init| ==> init[l] == leaves[l];
      if AllOk(leaves) {
        assert AllOk(init);
      }
      if !Collect(init).ok {
        assert !AllOk(init);
        var l, i :| 0 <= l < |init| && 0 <= i < |init[l].items| && !ItemOk(init[l].items[i]);
        assert !ItemOk(leaves[l].items[i]);
      }
    }
  }

  /** When the walk stops early, it stops at a leaf with an item that is not fine, having built the test cases before it. */
  lemma {:induction false} CollectStops(leaves: seq<Leaf>)
    requires !Collect(leaves).ok
    ensures var n := |Collect(leaves).cases|;
      && n < |leaves|
      && AllOk(leaves[..n])
      && (exists i :: 0 <= i < |leaves[n].items| && !ItemOk(leaves[n].items[i]))
      && Collect(leaves[..n]) == Collected(Collect(leaves).cases, true)
  {
    var init := leaves[..|leaves| - 1];
    var last := leaves[|leaves| - 1];
    var n := |Collect(leaves).cases|;
    if !Collect(init).ok {
      CollectStops(init);
      assert init[..n] == leaves[..n];
      assert init[n] == leaves[n];
    } else {
      CollectSpec(init);
      assert init == leaves[..n];
    }
  }


  /** Once the walk has stopped, the leaves after the ones walked are not walked. */
  lemma CollectStopped(done: seq<Leaf>, all: seq<Leaf>)
    requires done <= all && !Collect(done).ok
    ensures Collect(all) == Collect(done)
  {
    CollectAppend(done, all[|done|..]);
    assert done + all[|done|..] == all;
  }

  /** Views of a list with one object more. */
  lemma ViewsAppend(ts: seq<TestCaseInTrace>, t: TestCaseInTrace)
    ensures Views(ts + [t]) == Views(ts) + [t.View()]
  {
    assert forall i :: 0 <= i < |ts| ==> (ts + [t])[i] == ts[i];
  }

  /** One more walked part, after parts that got through, adds its test cases after theirs. */
  lemma CollectStep(found: seq<Case>, leaves: seq<Leaf>, more: seq<Leaf>)
    requires Collect(leaves).ok
    ensures found + Collect(leaves).cases + Collect(more).cases == found + Collect(leaves + more).cases
    ensures Collect(leaves + more).ok == Collect(more).ok
  {
    CollectAppend(leaves, more);
  }

  /**
   * The TRACE_TESTCASE branch of `extract_test_case` up to adding the test
   * case: a new `TestCaseInTrace` receives one record per item, in order.
   * `ok` is false when building a record raised, and then the object is
   * dropped.
   */
  method BuildTestCase(stateId: int, items: seq<RawItem>) returns (testCase: TestCaseInTrace, ok: bool)
    ensures fresh(testCase) && testCase.stateId == stateId
    ensures ok == KeyValuesOf(items).Some?
    ensures ok ==> testCase.keyValues == KeyValuesOf(items).value
  {
    testCase := new TestCaseInTrace(stateId);
    for i := 0 to |items|
      invariant fresh(testCase) && testCase.stateId == stateId && |testCase.keyValues| == i
      invariant forall j :: 0 <= j < i ==> ItemOk(items[j])
      invariant forall j :: 0 <= j < i ==> KeyValueOf(items[j].key, items[j].value) == Some(testCase.keyValues[j])
    {
      var kv := NewKeyValue(items[i].key, items[i].value);
      if kv.None? {
        assert !ItemOk(items[i]);
        return testCase, false;
      }
      testCase.AddKeyValue(kv.value);
    }
    var r := KeyValuesOf(items);
    assert r.Some? && r.value == testCase.keyValues by {
      forall j | 0 <= j < |items| ensures r.value[j] == testCase.keyValues[j] {
        assert KeyValueOf(items[j].key, items[j].value) == Some(r.value[j]);
      }
    }
    ok := true;
  }

  /**
   * `extract_test_case`: a test case entry becomes a new test case object,
   * added to `testCases` once all its records are built; a fork entry is
   * walked child by child, entry by entry, under the child's state id; any
   * other entry is skipped. `ok` is false when building a record raised,
   * which abandons the walk; the test cases added before stay.
   */
  method ExtractTestCases(testCases: TestCasesInTrace, stateId: int, e: Entry) returns (ok: bool)
    modifies testCases
    decreases e, 2
    ensures Views(testCases.testCases) == old(Views(testCases.testCases)) + Collect(EntryLeaves(stateId, e)).cases
    ensures ok == Collect(EntryLeaves(stateId, e)).ok
    ensures forall t :: t in testCases.testCases ==> t in old(testCases.testCases) || fresh(t)
  {
    ghost var found := Views(testCases.testCases);
    match e
    case TestCaseEntry(items) =>
      assert [Leaf(stateId, items)][..0] == [];
      var testCase;
      testCase, ok := BuildTestCase(stateId, items);
      if !ok {
        assert found + [] == found;
        return;
      }
      ViewsAppend(testCases.testCases, testCase);
      testCases.AddTestCase(testCase);
    case ForkEntry(children) =>
      ok := ExtractFork(testCases, e);
    case OtherEntry =>
      assert found + [] == found;
      ok := true;
  }

  /** The TRACE_FORK branch of `extract_test_case`: the traces of the children, child by child. */
  method ExtractFork(testCases: TestCasesInTrace, e: Entry) returns (ok: bool)
    requires e.ForkEntry?
    modifies testCases
    decreases e, 1
    ensures Views(testCases.testCases) == old(Views(testCases.testCases)) + Collect(ChildrenLeaves(e, |e.children|)).cases
    ensures ok == Collect(ChildrenLeaves(e, |e.children|)).ok
    ensures forall t :: t in testCases.testCases ==> t in old(testCases.testCases) || fresh(t)
  {
    ghost var found := Views(testCases.testCases);
    assert found + [] == found;
    ok := true;
    for k := 0 to |e.children|
      invariant ok && Collect(ChildrenLeaves(e, k)).ok
      invariant Views(testCases.testCases) == found + Collect(ChildrenLeaves(e, k)).cases
      invariant forall t :: t in testCases.testCases ==> t in old(testCases.testCases) || fresh(t)
    {
      ok := ExtractChild(testCases, e, k);
      CollectStep(found, ChildrenLeaves(e, k), TraceLeaves(e, k, |e.children[k].trace|));
      if !ok {
        ChildrenLeavesPrefix(e, k, |e.children[k].trace|, |e.children|);
        CollectStopped(ChildrenLeaves(e, k + 1), ChildrenLeaves(e, |e.children|));
        return;
      }
    }
  }

  /** The inner loop of the TRACE_FORK branch: every entry of child `k`'s trace, in its state. */
  method ExtractChild(testCases: TestCasesInTrace, e: Entry, k: nat) returns (ok: bool)
    requires e.ForkEntry? && k < |e.children|
    modifies testCases
    decreases e, 0
    ensures Views(testCases.testCases) == old(Views(testCases.testCases)) + Collect(TraceLeaves(e, k, |e.children[k].trace|)).cases
    ensures ok == Collect(TraceLeaves(e, k, |e.children[k].trace|)).ok
    ensures forall t :: t in testCases.testCases ==> t in old(testCases.testCases) || fresh(t)
  {
    ghost var found := Views(testCases.testCases);
    assert found + [] == found;
    var child := e.children[k];
    ok := true;
    for j := 0 to |child.trace|
      invariant ok && Collect(TraceLeaves(e, k, j)).ok
      invariant Views(testCases.testCases) == found + Collect(TraceLeaves(e, k, j)).cases
      invariant forall t :: t in testCases.testCases ==> t in old(testCases.testCases) || fresh(t)
    {
      assert child.trace[j] < e by {
        assert child in e.children;
      }
      ok := ExtractTestCases(testCases, child.stateId, child.trace[j]);
      CollectStep(found, TraceLeaves(e, k, j), EntryLeaves(child.stateId, child.trace[j]));
      if !ok {
        TraceLeavesPrefix(e, k, j + 1, |child.trace|);
        CollectStopped(TraceLeaves(e, k, j + 1), TraceLeaves(e, k, |child.trace|));
        return;
      }
    }
  }

  /**
   * The walk `handle` starts: every top-level entry of the execution tree,
   * in state 0, into a new `TestCasesInTrace`; the same loop as over a fork
   * child's trace.
   */
  method ExtractAll(tree: seq<Entry>) returns (testCases: TestCasesInTrace, ok: bool)
    ensures fresh(testCases) && forall t :: t in testCases.testCases ==> fresh(t)
    ensures Views(testCases.testCases) == Collect(TreeLeaves(tree, |tree|)).cases
    ensures ok == Collect(TreeLeaves(tree, |tree|)).ok
  {
    testCases := new TestCasesInTrace();
    ok := ExtractChild(testCases, Root(tree), 0);
    assert [] + Collect(TreeLeaves(tree, |tree|)).cases == Collect(TreeLeaves(tree, |tree|)).cases;
  }

  /** `'testcase-%06d.json' % testid`. */
  function TestCaseFileName(testId: nat): (name: string)
    ensures ParseTestCaseFileName(name) == Some(testId)
    ensures testId < 1000000 ==> |name| == 20
  {
    var digits := FormatZeroPadded6(testId);
    var name := "testcase-" + digits + ".json";
    assert name[..9] == "testcase-" && name[|name| - 5..] == ".json" && name[9..|name| - 5] == digits;
    name
  }

  /** The test id a test case file name carries, if it has the form of one. */
  function ParseTestCaseFileName(name: string): Option<nat>
  {
    if |name| >= 14 && name[..9] == "testcase-" && name[|name| - 5..] == ".json"
    then NumeralValue(name[9..|name| - 5], 10)
    else None
  }

  /** Why `handle` stops before writing anything. */
  datatype HandleError =
    | ResultsDirMissing   // the results directory does not exist
    | EmptyTrace          // the execution trace is empty
    | BadValueLength      // `byte_array_to_int` raised on a value of five to eight bytes
    | OutdirMissing       // the given output directory does not exist

  /** What `handle` does: the directory and the files, name and JSON content, it writes in order; or why it stops. */
  datatype Outcome =
    | Written(outdir: string, files: seq<(string, Json)>)
    | Failed(error: HandleError)

  /** The test cases the walk of the whole execution tree builds, in the order found. */
  function ExtractedCases(tree: seq<Entry>): seq<Case>
  {
    Collect(TreeLeaves(tree, |tree|)).cases
  }

  /** One file per test case, numbered from 0 in the order given. */
  function TestCaseFiles(cases: seq<Case>): (files: seq<(string, Json)>)
    ensures |files| == |cases|
  {
    seq(|cases|, i requires 0 <= i < |cases| => (TestCaseFileName(i), CaseJson(cases[i])))
  }

  /**
   * `handle`, given the existing directories `dirs` and the execution tree
   * read from the results directory: the checks in the order the command
   * makes them, then the sorted test cases, one JSON file each.
   */
  function HandleSpec(resultsDir: string, dirs: set<string>, tree: seq<Entry>, outdir: Option<string>): Outcome
  {
    if resultsDir !in dirs then Failed(ResultsDirMissing)
    else if tree == [] then Failed(EmptyTrace)
    else if !Collect(TreeLeaves(tree, |tree|)).ok then Failed(BadValueLength)
    else if OutdirGiven(outdir) && outdir.value !in dirs then Failed(OutdirMissing)
    else Written(if OutdirGiven(outdir) then outdir.value else resultsDir, TestCaseFiles(SortCases(ExtractedCases(tree))))
  }

  /**
   * `handle`: checks the results directory, walks the execution tree into a
   * `TestCasesInTrace`, sorts it, picks the output directory and writes one
   * file per test case, numbering them in sorted order.
   */
  method Handle(resultsDir: string, dirs: set<string>, tree: seq<Entry>, outdir: Option<string>) returns (r: Outcome)
    ensures r == HandleSpec(resultsDir, dirs, tree, outdir)
  {
    if resultsDir !in dirs {
      return Failed(ResultsDirMissing);
    }
    if tree == [] {
      return Failed(EmptyTrace);
    }
    var testCases, ok := ExtractAll(tree);
    if !ok {
      return Failed(BadValueLength);
    }
    forall i | 0 <= i < |testCases.testCases| ensures fresh(testCases.testCases[i]) {
      assert testCases.testCases[i] in testCases.testCases;
    }
    testCases.Sort();
    var out := resultsDir;
    if OutdirGiven(outdir) {
      if outdir.value !in dirs {
        return Failed(OutdirMissing);
      }
      out := outdir.value;
    }
    var files := WriteFiles(testCases.testCases);
    return Written(out, files);
  }

  /** The loop of `handle` over the sorted test cases: test case `i` goes to the file numbered `i`. */
  method WriteFiles(cases: seq<TestCaseInTrace>) returns (files: seq<(string, Json)>)
    ensures files == TestCaseFiles(Views(cases))
  {
    ghost var views := Views(cases);
    files := [];
    var testId := 0;
    while testId < |cases|
      invariant testId <= |cases|
      invariant files == TestCaseFiles(views[..testId])
    {
      var testCase := cases[testId];
      assert testCase.View() == views[testId];
      assert views[..testId + 1] == views[..testId] + [views[testId]];
      TestCaseFilesAppend(views[..testId], views[testId]);
      files := files + [(TestCaseFileName(testId), testCase.MakeJsonDict())];
      testId := testId + 1;
    }
    assert views[..testId] == views;
  }

  /** Numbering one more test case adds one file at the end. */
  lemma TestCaseFilesAppend(cases: seq<Case>, c: Case)
    ensures TestCaseFiles(cases + [c]) == TestCaseFiles(cases) + [(TestCaseFileName(|cases|), CaseJson(c))]
  {
    var longer, shorter := TestCaseFiles(cases + [c]), TestCaseFiles(cases);
    var added := shorter + [(TestCaseFileName(|cases|), CaseJson(c))];
    forall i | 0 <= i < |longer| ensures longer[i] == added[i] {
      assert (cases + [c])[i] == if i < |cases| then cases[i] else c;
    }
  }

  /**
   * When `handle` stops, and why: each error exactly when the checks before it
   * pass and its own fails; the walk fails exactly when some item's value is
   * five to eight bytes long.
   */
  lemma HandleErrors(resultsDir: string, dirs: set<string>, tree: seq<Entry>, outdir: Option<string>)
    ensures var r := HandleSpec(resultsDir, dirs, tree, outdir);
      && (r == Failed(ResultsDirMissing) <==> resultsDir !in dirs)
      && (r == Failed(EmptyTrace) <==> resultsDir in dirs && tree == [])
      && (r == Failed(BadValueLength) <==> resultsDir in dirs && tree != [] && !AllOk(TreeLeaves(tree, |tree|)))
      && (r == Failed(OutdirMissing) <==>
          resultsDir in dirs && tree != [] && AllOk(TreeLeaves(tree, |tree|)) && OutdirGiven(outdir) && outdir.value !in dirs)
      && (r.Written? <==>
          resultsDir in dirs && tree != [] && AllOk(TreeLeaves(tree, |tree|)) && (OutdirGiven(outdir) ==> outdir.value in dirs))
  {
    CollectSpec(TreeLeaves(tree, |tree|));
  }

  /**
   * What `handle` writes: into the given output directory, or the results
   * directory when none is given, one file per test case entry of the trace,
   * named by its position; file `i` reads back as the `i`-th test case in
   * ascending state id order, and the test cases written are exactly those
   * built from the entries, with their records sorted by key.
   */
  lemma HandleWrites(resultsDir: string, dirs: set<string>, tree: seq<Entry>, outdir: Option<string>)
    requires HandleSpec(resultsDir, dirs, tree, outdir).Written?
    ensures var r := HandleSpec(resultsDir, dirs, tree, outdir);
      var leaves := TreeLeaves(tree, |tree|);
      var cases := ExtractedCases(tree);
      var sorted := SortCases(cases);
      && r.outdir == (if OutdirGiven(outdir) then outdir.value else resultsDir)
      && r.outdir in dirs
      && |cases| == |leaves| == |r.files|
      && (forall l :: 0 <= l < |leaves| ==> KeyValuesOf(leaves[l].items).Some? && cases[l] == Case(leaves[l].stateId, KeyValuesOf(leaves[l].items).value))
      && (forall i :: 0 <= i < |r.files| ==> ParseTestCaseFileName(r.files[i].0) == Some(i))
      && (forall i :: 0 <= i < |r.files| ==> CaseFromJson(r.files[i].1) == Some(CaseDictOf(sorted[i])))
      && SortedBy(sorted, CaseStateId, IntLess)
      && multiset(sorted) == multiset(Map(cases, SortKeyValues))
      && (forall i :: 0 <= i < |sorted| ==> SortedBy(sorted[i].keyValues, KeyOf, LexLess))
  {
    CollectSpec(TreeLeaves(tree, |tree|));
    SortCasesSpec(ExtractedCases(tree));
  }
}
