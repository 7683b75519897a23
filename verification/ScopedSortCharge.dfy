/** A reachable store whose listing passes the work limit only while nothing is sorted. */
module ScopedSortCharge {
  import opened Basics
  import opened ScopedGlob
  import opened ScopedPaths
  import opened ScopedStore

  const FILES: nat := 6000
  const PROJECT: Units := ['p' as int]
  const LETTER: CodeUnit := 'a' as int

  /** Distinct knowledge paths of one component with 250 units. */
  function SamplePath(i: nat): (path: Units)
    requires i < FILES
    ensures |path| == 250 && path[0] == 0x4000 + i && forall k :: 1 <= k < 250 ==> path[k] == LETTER
  {
    [0x4000 + i] + seq(249, k requires 0 <= k < 249 => LETTER)
  }

  function SampleKey(i: nat): Units
    requires i < FILES
  {
    ScopedFileKey(PROJECT, Knowledge, SamplePath(i))
  }

  /** A first unit beyond ASCII and letters after it: nothing any check objects to. */
  ghost predicate IsPlain(path: Units) {
    1 < |path| <= 255 && path[0] >= 0x4000 && forall k :: 1 <= k < |path| ==> path[k] == LETTER
  }

  lemma PlainTextIsAdmitted(path: Units)
    requires IsPlain(path)
    ensures ValidateScopedText(path).Ok? && SplitAt(path, SLASH) == [path]
  {
    SplitAtPiece(path, [], SLASH);
    hide SplitAt, ToUnits;
    PlainIsNotFolded(path);
    assert path[1] == LETTER;
  }

  lemma PlainIsNotFolded(path: Units)
    requires IsPlain(path)
    ensures !FoldedPrefix(path, "file://") && !HasEncodedSeparator(path)
  {
    assert ToUnits("file://")[0] == 'f' as int;
    assert ToUnits("%2f")[0] == ToUnits("%5c")[0] == ToUnits("%252f")[0] == ToUnits("%255c")[0] == '%' as int;
    forall i | 0 <= i <= |path| ensures !FoldedPercent(path[i..]) {
      assert i < |path| ==> path[i..][0] == path[i] && Fold(path[i]) != '%' as int;
    }
  }

  lemma PlainPathIsAdmitted(path: Units)
    requires IsPlain(path)
    ensures NormalizeScopedPath(Knowledge, path).Ok?
  {
    PlainTextIsAdmitted(path);
    PlainIsNotReserved(path);
    hide SplitAt, StartsWithAny, ToUnits, ValidateScopedText;
    assert path[|path| - 1] == LETTER;
  }

  lemma PlainIsNotReserved(path: Units)
    requires IsPlain(path)
    ensures !StartsWithAny(path, RESERVED_ROOTS)
  {
    forall i | 0 <= i < |RESERVED_ROOTS| ensures !IsUnderPrefix(path, ToUnits(RESERVED_ROOTS[i])) {
      var root := RESERVED_ROOTS[i];
      assert root != "" && root[0] as int < 0x80;
      assert ToUnits(root)[0] < 0x80;
    }
  }

  function SampleKeys(n: nat): (keys: seq<Units>)
    requires n <= FILES
    ensures |keys| == n
  {
    seq(n, i requires 0 <= i < n => SampleKey(i))
  }

  /** Storing an empty text under each of the first `n` keys. */
  function SampleStores(n: nat): (stores: seq<(Units, Units)>)
    requires n <= FILES
    ensures |stores| == n
  {
    seq(n, i requires 0 <= i < n => (SampleKey(i), []))
  }

  lemma SampleKeyShape(i: nat)
    requires i < FILES
    ensures |KeyPrefix(PROJECT, Knowledge)| == 12
    ensures |SampleKey(i)| == 262 && KeyPrefix(PROJECT, Knowledge) <= SampleKey(i)
    ensures SampleKey(i)[12..] == SamplePath(i) && SampleKey(i)[12] == 0x4000 + i
    ensures WellKeyed(SampleKey(i))
  {
    assert |ScopeName(Knowledge)| == 9;
    assert NUL !in PROJECT;
    PlainPathIsAdmitted(SamplePath(i));
  }

  lemma StoreSample(s: State, n: nat)
    requires n < FILES && s.Valid() && s.order == SampleKeys(n) && s.units == n * 262
    ensures var t := s.Store(SampleKey(n), []);
      t.Valid() && t.order == SampleKeys(n + 1) && t.units == (n + 1) * 262
  {
    hide State.Valid, SampleKey, SampleKeys, State.Admits, WellKeyed;
    SampleKeyShape(n);
    SampleIsAdmitted(s, n);
    SampleKeysGrow(n);
    StoreKeepsAccounts(s, SampleKey(n), []);
  }

  lemma SampleKeysGrow(n: nat)
    requires n < FILES
    ensures SampleKeys(n + 1) == SampleKeys(n) + [SampleKey(n)]
  {
    hide SampleKey;
  }

  lemma SampleIsAdmitted(s: State, n: nat)
    requires n < FILES && s.Valid() && s.order == SampleKeys(n) && s.units == n * 262
    ensures SampleKey(n) !in s.files && s.Admits(SampleKey(n), [])
  {
    hide State.Valid, SampleKey, SampleKeys, WellKeyed;
    SampleKeyShape(n);
    NewSampleKey(n);
    FilesAreKeys(s);
  }

  lemma {:induction false} SampleRun(n: nat)
    requires n <= FILES
    ensures Run(SampleStores(n)).Valid()
    ensures Run(SampleStores(n)).order == SampleKeys(n) && Run(SampleStores(n)).units == n * 262
  {
    hide State.Valid, SampleKey, State.Store;
    if n == 0 {
      RunKeepsAccounts([]);
    } else {
      SampleRun(n - 1);
      StoreSample(Run(SampleStores(n - 1)), n - 1);
      assert SampleStores(n)[..n - 1] == SampleStores(n - 1);
    }
  }

  lemma NewSampleKey(n: nat)
    requires n < FILES
    ensures SampleKey(n) !in SampleKeys(n)
  {
    hide SampleKey;
    SampleKeyShape(n);
    forall i | 0 <= i < n ensures SampleKeys(n)[i] != SampleKey(n) {
      SampleKeyShape(i);
    }
  }

  lemma FilesAreKeys(s: State)
    requires s.Valid()
    ensures |s.files| == |s.order| && forall k :: k in s.files ==> k in s.order
  {
  }

  lemma {:induction false} SampleCost(n: nat, files: map<Units, Units>)
    requires n <= FILES
    ensures QueryCost(SampleKeys(n), KeyPrefix(PROJECT, Knowledge), Everything) == n * 262
    ensures var entries := Selected(SampleKeys(n), files, Knowledge, KeyPrefix(PROJECT, Knowledge), Everything);
      |entries| == n && forall k :: 0 <= k < n ==> |entries[k].path| == 250
  {
    hide SampleKey, SampleKeys, KeyPrefix, NormalizeScopedPath, TextAt, WellKeyed;
    if n > 0 {
      SampleCost(n - 1, files);
      SampleKeyShape(n - 1);
      SampleKeysGrow(n - 1);
      assert SampleKeys(n)[..n - 1] == SampleKeys(n - 1);
    }
  }

  lemma {:induction false} SampleSortCost(entries: seq<Entry>, calls: seq<(nat, nat)>)
    requires CallsWithin(calls, |entries|) && forall k :: 0 <= k < |entries| ==> |entries[k].path| == 250
    ensures SortCost(entries, calls) == 500 * |calls|
  {
    if calls != [] {
      SampleSortCost(entries, calls[..|calls| - 1]);
    }
  }

  function SampleState(): State {
    Run(SampleStores(FILES))
  }

  ghost function SampleEntries(): seq<Entry> {
    Selected(SampleState().order, SampleState().files, Knowledge, KeyPrefix(PROJECT, Knowledge), Everything)
  }

  /**
   * Listing these 6,000 files passes over the store within the work limit. Any sort that makes at least one comparison
   * fewer than there are entries, as every comparison sort must, then exceeds it.
   */
  lemma PassFitsAndSortDoesNot(sort: Sort)
    requires sort.Valid() && |sort.calls(SampleEntries())| + 1 >= |SampleEntries()|
    ensures SampleState().Valid() && |SampleEntries()| == FILES
    ensures QueryCost(SampleState().order, KeyPrefix(PROJECT, Knowledge), Everything) <= MAX_SCOPED_QUERY_WORK
    ensures WholeCost(SampleState(), PROJECT, Knowledge, Everything, sort) > MAX_SCOPED_QUERY_WORK
  {
    hide SampleState, State.Valid, Selected, QueryCost, SortCost;
    StateIsSample();
    SampleRun(FILES);
    SampleCost(FILES, SampleState().files);
    var entries := SampleEntries();
    assert CallsWithin(sort.calls(entries), |entries|);
    SampleSortCost(entries, sort.calls(entries));
  }

  lemma StateIsSample()
    ensures SampleState() == Run(SampleStores(FILES))
  {
  }
}
