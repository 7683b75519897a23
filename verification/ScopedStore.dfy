/** The bridge's bounded text store and its queries. */
module ScopedStore {
  import opened Text
  import opened Basics
  import opened ScopedGlob
  import opened ScopedPaths

  const MAX_ENTRIES: nat := 10_000
  const MAX_STORED_UNITS: nat := 8_388_608
  const MAX_VALUE_UNITS: nat := 1_048_576

  // ----- Keys -----

  function ScopedFileKey(projectId: Units, scope: Scope, path: Units): Units {
    KeyPrefix(projectId, scope) + path
  }

  function KeyPrefix(projectId: Units, scope: Scope): Units {
    projectId + [NUL] + ScopeName(scope) + [NUL]
  }

  lemma ScopeNames()
    ensures forall scope :: NUL !in ScopeName(scope)
    ensures ScopeName(Knowledge) != ScopeName(Artifact)
    ensures ScopeName(Knowledge) == ToUnits("knowledge") && ScopeName(Artifact) == ToUnits("artifact")
  {
    assert |ScopeName(Knowledge)| == 9 && |ScopeName(Artifact)| == 8;
    forall scope, i | 0 <= i < |ScopeName(scope)|
      ensures ScopeName(scope)[i] != NUL
    {
      var name := if scope.Knowledge? then "knowledge" else "artifact";
      assert name[i] != '\0' && name[i] as int < 128;
    }
  }

  /** Keys of registered projects never collide, whatever their paths contain. */
  lemma KeysAreInjective(p: Units, s: Scope, x: Units, q: Units, t: Scope, y: Units)
    requires NUL !in p && NUL !in q && ScopedFileKey(p, s, x) == ScopedFileKey(q, t, y)
    ensures p == q && s == t && x == y
  {
    hide ScopedFileKey, ScopeName;
    ScopeNames();
    KeyText(p, s, x);
    KeyText(q, t, y);
    FirstMark(NUL, p, ScopeName(s) + [NUL] + x, q, ScopeName(t) + [NUL] + y);
    FirstMark(NUL, ScopeName(s), x, ScopeName(t), y);
  }

  lemma KeyText(projectId: Units, scope: Scope, path: Units)
    ensures ScopedFileKey(projectId, scope, path) == projectId + [NUL] + (ScopeName(scope) + [NUL] + path)
  {
    hide ScopeName;
  }

  /** A key starts with a project's and scope's prefix exactly when it belongs to them. */
  lemma PrefixSelectsOwner(p: Units, s: Scope, q: Units, t: Scope, y: Units)
    requires NUL !in p && NUL !in q
    ensures KeyPrefix(p, s) <= ScopedFileKey(q, t, y) <==> p == q && s == t
  {
    var key := ScopedFileKey(q, t, y);
    if KeyPrefix(p, s) <= key {
      var x := key[|KeyPrefix(p, s)|..];
      assert key == ScopedFileKey(p, s, x);
      KeysAreInjective(p, s, x, q, t, y);
    }
  }

  // ----- Accounting -----

  /** The text stored under a key; an absent key reads as empty. */
  function TextAt(files: map<Units, Units>, key: Units): Units {
    if key in files then files[key] else []
  }

  /** The units held by the files named in `order`: keys and texts. */
  function UnitsHeld(order: seq<Units>, files: map<Units, Units>): nat {
    if order == [] then 0
    else
      var last := order[|order| - 1];
      UnitsHeld(order[..|order| - 1], files) + |last| + |TextAt(files, last)|
  }

  ghost predicate Distinct(order: seq<Units>) {
    forall i, j :: 0 <= i < j < |order| ==> order[i] != order[j]
  }

  lemma {:induction false} UnitsUnaffected(order: seq<Units>, files: map<Units, Units>, key: Units, text: Units)
    requires key !in order
    ensures UnitsHeld(order, files[key := text]) == UnitsHeld(order, files)
  {
    if order != [] {
      assert order[|order| - 1] in order;
      UnitsUnaffected(order[..|order| - 1], files, key, text);
    }
  }

  lemma {:induction false} UnitsReplaced(order: seq<Units>, files: map<Units, Units>, key: Units, text: Units)
    requires key in order && Distinct(order)
    ensures UnitsHeld(order, files[key := text]) == UnitsHeld(order, files) + |text| - |TextAt(files, key)|
  {
    var init, last := order[..|order| - 1], order[|order| - 1];
    if last == key {
      assert forall i :: 0 <= i < |init| ==> init[i] == order[i] != last;
      UnitsUnaffected(init, files, key, text);
    } else {
      assert order == init + [last];
      UnitsReplaced(init, files, key, text);
    }
  }

  // ----- Queries as values -----

  datatype Filter = Everything | Under(prefix: Units) | Glob(glob: Units)

  datatype Entry = Entry(path: Units, projectRelativePath: Units, chars: nat)

  ghost predicate Accepted(filter: Filter, path: Units) {
    match filter
    case Everything => true
    case Under(prefix) => IsUnderPrefix(path, prefix)
    case Glob(glob) => Language(glob, path)
  }

  function FilterCost(filter: Filter, path: Units): nat {
    match filter
    case Everything => 0
    case Under(prefix) => |path| + |prefix|
    case Glob(glob) => (|Collapse(Tokenize(glob))| + 1) * (|path| + 1)
  }

  /** The work charged for looking at one stored key. */
  function KeyCost(key: Units, prefix: Units, filter: Filter): nat {
    Min(|key|, |prefix|)
    + (if prefix <= key then |key| - |prefix| + FilterCost(filter, key[|prefix|..]) else 0)
  }

  function QueryCost(order: seq<Units>, prefix: Units, filter: Filter): nat {
    if order == [] then 0
    else QueryCost(order[..|order| - 1], prefix, filter) + KeyCost(order[|order| - 1], prefix, filter)
  }

  lemma QueryStep(order: seq<Units>, i: nat, files: map<Units, Units>, scope: Scope, prefix: Units, filter: Filter)
    requires i < |order|
    ensures QueryCost(order[..i + 1], prefix, filter) == QueryCost(order[..i], prefix, filter) + KeyCost(order[i], prefix, filter)
    ensures Selected(order[..i + 1], files, scope, prefix, filter) ==
      Selected(order[..i], files, scope, prefix, filter)
      + (if prefix <= order[i] && Accepted(filter, order[i][|prefix|..]) then
           [EntryFor(order[i][|prefix|..], TextAt(files, order[i]), scope)] else [])
  {
    hide KeyCost, Accepted, EntryFor;
    assert order[..i + 1][..i] == order[..i];
  }

  lemma {:induction false} QueryCostGrows(order: seq<Units>, k: nat, prefix: Units, filter: Filter)
    requires k <= |order|
    ensures QueryCost(order[..k], prefix, filter) <= QueryCost(order, prefix, filter)
  {
    if k == |order| {
      assert order[..k] == order;
    } else {
      QueryCostGrows(order[..|order| - 1], k, prefix, filter);
      assert order[..|order| - 1][..k] == order[..k];
    }
  }

  /** The entries of one project and scope that a filter accepts, in storage order. */
  ghost function Selected(
    order: seq<Units>, files: map<Units, Units>, scope: Scope, prefix: Units, filter: Filter): seq<Entry>
  {
    if order == [] then []
    else
      var init, key := order[..|order| - 1], order[|order| - 1];
      var earlier := Selected(init, files, scope, prefix, filter);
      if prefix <= key && Accepted(filter, key[|prefix|..]) then
        earlier + [EntryFor(key[|prefix|..], TextAt(files, key), scope)]
      else earlier
  }

  /** What a query reports of one stored file; stored paths always resolve. */
  function EntryFor(path: Units, text: Units, scope: Scope): Entry {
    match NormalizeScopedPath(scope, path)
    case Ok(resolved) => Entry(path, resolved, |text|)
    case Err(_) => Entry(path, [], |text|)
  }

  /** Keys of registered projects with admitted paths, the only ones the bridge stores. */
  ghost predicate WellKeyed(key: Units) {
    exists projectId: Units, scope: Scope, path: Units ::
      NUL !in projectId && key == ScopedFileKey(projectId, scope, path) && NormalizeScopedPath(scope, path).Ok?
  }

  /** The store's contents as a value. */
  datatype State = State(files: map<Units, Units>, order: seq<Units>, units: int) {
    ghost predicate Valid() {
      && Distinct(order) && (forall k :: k in order <==> k in files) && |order| == |files|
      && (forall k :: k in order ==> WellKeyed(k))
      && units == UnitsHeld(order, files) <= MAX_STORED_UNITS
      && |order| <= MAX_ENTRIES
    }

    /** The units held after storing `text` under `key`. */
    function Projected(key: Units, text: Units): int {
      units + (if key in files then 0 else |key|) + |text| - (if key in files then |files[key]| else 0)
    }

    predicate Admits(key: Units, text: Units) {
      |text| <= MAX_VALUE_UNITS && (key in files || |files| < MAX_ENTRIES) && Projected(key, text) <= MAX_STORED_UNITS
    }

    /** A refused store changes nothing. */
    function Store(key: Units, text: Units): State {
      if Admits(key, text) then
        State(files[key := text], if key in files then order else order + [key], Projected(key, text))
      else this
    }
  }

  /** Every store keeps the exact accounting and both caps. */
  lemma StoreKeepsAccounts(s: State, key: Units, text: Units)
    requires s.Valid() && WellKeyed(key)
    ensures s.Store(key, text).Valid()
  {
    hide WellKeyed, UnitsHeld;
    if s.Admits(key, text) {
      if key in s.files {
        UnitsReplaced(s.order, s.files, key, text);
      } else {
        AppendedKey(s, key, text);
      }
    }
  }

  /**
   * A store succeeds exactly when the text is short enough and the store it would make stays within both caps, keys and
   * texts counted; it then makes that store, and otherwise none.
   */
  lemma StoreExactly(s: State, key: Units, text: Units)
    requires s.Valid()
    ensures var order, files := if key in s.files then s.order else s.order + [key], s.files[key := text];
      var fits := |text| <= 1_048_576 && |files| <= 10_000 && UnitsHeld(order, files) <= 8_388_608;
      && (s.Admits(key, text) <==> fits)
      && s.Store(key, text) == if fits then State(files, order, UnitsHeld(order, files)) else s
  {
    hide WellKeyed, UnitsHeld;
    if key in s.files {
      UnitsReplaced(s.order, s.files, key, text);
      SameSize(s.files, key, text);
    } else {
      AppendedKey(s, key, text);
    }
  }

  lemma SameSize(files: map<Units, Units>, key: Units, text: Units)
    requires key in files
    ensures |files[key := text]| == |files|
  {
    assert files[key := text].Keys == files.Keys;
    assert |files| == |files.Keys| && |files[key := text]| == |files[key := text].Keys|;
  }

  lemma AppendedKey(s: State, key: Units, text: Units)
    requires s.Valid() && key !in s.files
    ensures var order, files := s.order + [key], s.files[key := text];
      && Distinct(order) && (forall k :: k in order <==> k in files) && |order| == |files|
      && UnitsHeld(order, files) == s.units + |key| + |text|
  {
    hide WellKeyed;
    UnitsUnaffected(s.order, s.files, key, text);
    var order := s.order + [key];
    assert order[..|order| - 1] == s.order;
    assert forall i :: 0 <= i < |s.order| ==> s.order[i] in s.order && s.order[i] in s.files;
  }

  /** After any run of stores from an empty bridge the accounts are exact and within their caps. */
  lemma {:induction false} RunKeepsAccounts(stores: seq<(Units, Units)>)
    requires forall i :: 0 <= i < |stores| ==> WellKeyed(stores[i].0)
    ensures Run(stores).Valid()
  {
    if stores != [] {
      RunKeepsAccounts(stores[..|stores| - 1]);
      var last := stores[|stores| - 1];
      StoreKeepsAccounts(Run(stores[..|stores| - 1]), last.0, last.1);
    }
  }

  function Run(stores: seq<(Units, Units)>): State {
    if stores == [] then State(map[], [], 0)
    else
      var last := stores[|stores| - 1];
      Run(stores[..|stores| - 1]).Store(last.0, last.1)
  }

  // ----- What queries select -----

  /** A query reports a path exactly when that project and scope hold it and the filter accepts it, and reports it once. */
  lemma SelectedExactly(s: State, projectId: Units, scope: Scope, filter: Filter, path: Units)
    requires s.Valid() && NUL !in projectId
    ensures (exists e :: e in Selected(s.order, s.files, scope, KeyPrefix(projectId, scope), filter) && e.path == path)
      <==> ScopedFileKey(projectId, scope, path) in s.files && Accepted(filter, path)
  {
    SelectedUpTo(s.order, s.files, projectId, scope, filter, path);
  }

  lemma {:induction false} SelectedUpTo(
    order: seq<Units>, files: map<Units, Units>, projectId: Units, scope: Scope, filter: Filter, path: Units)
    ensures (exists e :: e in Selected(order, files, scope, KeyPrefix(projectId, scope), filter) && e.path == path)
      <==> ScopedFileKey(projectId, scope, path) in order && Accepted(filter, path)
  {
    if order != [] {
      hide KeyPrefix, Accepted, ScopedFileKey, TextAt;
      var prefix, init, key := KeyPrefix(projectId, scope), order[..|order| - 1], order[|order| - 1];
      SelectedUpTo(init, files, projectId, scope, filter, path);
      KeyAt(projectId, scope, path, key);
      assert order == init + [key];
      var earlier := Selected(init, files, scope, prefix, filter);
      if prefix <= key && Accepted(filter, key[|prefix|..]) {
        var added := EntryFor(key[|prefix|..], TextAt(files, key), scope);
        assert added.path == key[|prefix|..] && added in earlier + [added];
        assert forall e :: e in earlier + [added] <==> e in earlier || e == added;
      }
    }
  }

  lemma KeyAt(projectId: Units, scope: Scope, path: Units, key: Units)
    ensures var prefix := KeyPrefix(projectId, scope);
      key == ScopedFileKey(projectId, scope, path) <==> prefix <= key && key[|prefix|..] == path
  {
    hide KeyPrefix;
    var prefix := KeyPrefix(projectId, scope);
    if prefix <= key {
      assert key == prefix + key[|prefix|..];
    }
  }

  ghost predicate DistinctPaths(entries: seq<Entry>) {
    forall i, j :: 0 <= i < j < |entries| ==> entries[i].path != entries[j].path
  }

  lemma {:induction false} SelectedOnce(
    order: seq<Units>, files: map<Units, Units>, projectId: Units, scope: Scope, filter: Filter)
    requires Distinct(order)
    ensures DistinctPaths(Selected(order, files, scope, KeyPrefix(projectId, scope), filter))
  {
    hide KeyPrefix, Accepted;
    if order != [] {
      var prefix, init, key := KeyPrefix(projectId, scope), order[..|order| - 1], order[|order| - 1];
      assert forall i :: 0 <= i < |init| ==> init[i] == order[i] != key;
      SelectedOnce(init, files, projectId, scope, filter);
      var earlier := Selected(init, files, scope, prefix, filter);
      if prefix <= key && Accepted(filter, key[|prefix|..]) {
        NotSelectedBefore(init, files, projectId, scope, filter, key);
        assert EntryFor(key[|prefix|..], TextAt(files, key), scope).path == key[|prefix|..];
      }
    }
  }

  lemma NotSelectedBefore(
    init: seq<Units>, files: map<Units, Units>, projectId: Units, scope: Scope, filter: Filter, key: Units)
    requires key !in init && KeyPrefix(projectId, scope) <= key
    ensures var earlier := Selected(init, files, scope, KeyPrefix(projectId, scope), filter);
      forall i :: 0 <= i < |earlier| ==> earlier[i].path != key[|KeyPrefix(projectId, scope)|..]
  {
    hide Selected, Accepted;
    var prefix := KeyPrefix(projectId, scope);
    var path := key[|prefix|..];
    SelectedUpTo(init, files, projectId, scope, filter, path);
    assert key == prefix + path && ScopedFileKey(projectId, scope, path) == key;
    var earlier := Selected(init, files, scope, prefix, filter);
    assert forall i :: 0 <= i < |earlier| ==> earlier[i] in earlier;
  }

  /** Validating a stored path again while querying never fails. */
  lemma StoredPathsResolve(s: State, projectId: Units, scope: Scope, path: Units)
    requires s.Valid() && NUL !in projectId && ScopedFileKey(projectId, scope, path) in s.files
    ensures NormalizeScopedPath(scope, path).Ok?
  {
    hide UnitsHeld, ScopedFileKey, NormalizeScopedPath;
    var key := ScopedFileKey(projectId, scope, path);
    assert key in s.order && WellKeyed(key);
    var owner, kind, stored :|
      NUL !in owner && key == ScopedFileKey(owner, kind, stored) && NormalizeScopedPath(kind, stored).Ok?;
    KeysAreInjective(projectId, scope, path, owner, kind, stored);
  }

  lemma PrefixedPathsResolve(s: State, projectId: Units, scope: Scope, key: Units)
    requires s.Valid() && NUL !in projectId && key in s.order && KeyPrefix(projectId, scope) <= key
    ensures NormalizeScopedPath(scope, key[|KeyPrefix(projectId, scope)|..]).Ok?
  {
    hide State.Valid, NormalizeScopedPath, KeyPrefix, ScopedFileKey;
    var path := key[|KeyPrefix(projectId, scope)|..];
    KeysAreFiles(s, key);
    KeyAt(projectId, scope, path, key);
    StoredPathsResolve(s, projectId, scope, path);
  }

  /** What a query reports of a stored file is its validated path in the project. */
  lemma SelectedResolve(s: State, projectId: Units, scope: Scope, filter: Filter, e: Entry)
    requires s.Valid() && NUL !in projectId
    requires e in Selected(s.order, s.files, scope, KeyPrefix(projectId, scope), filter)
    ensures NormalizeScopedPath(scope, e.path) == Ok(e.projectRelativePath)
    ensures ScopedFileKey(projectId, scope, e.path) in s.files
      && e.chars == |s.files[ScopedFileKey(projectId, scope, e.path)]|
  {
    hide State.Valid, NormalizeScopedPath, KeyPrefix, ScopedFileKey;
    var key := SelectedFrom(s.order, s.files, projectId, scope, filter, e);
    KeysAreFiles(s, key);
    KeyAt(projectId, scope, e.path, key);
    PrefixedPathsResolve(s, projectId, scope, key);
  }

  lemma KeysAreFiles(s: State, key: Units)
    requires s.Valid() && key in s.order
    ensures key in s.files
  {
  }

  /** Every reported entry was read from one key. */
  lemma {:induction false} SelectedFrom(
    order: seq<Units>, files: map<Units, Units>, projectId: Units, scope: Scope, filter: Filter, e: Entry)
    returns (key: Units)
    requires e in Selected(order, files, scope, KeyPrefix(projectId, scope), filter)
    ensures key in order && KeyPrefix(projectId, scope) <= key
    ensures e == EntryFor(key[|KeyPrefix(projectId, scope)|..], TextAt(files, key), scope)
  {
    hide KeyPrefix, Accepted, EntryFor, TextAt;
    var prefix, init, last := KeyPrefix(projectId, scope), order[..|order| - 1], order[|order| - 1];
    if e in Selected(init, files, scope, prefix, filter) {
      key := SelectedFrom(init, files, projectId, scope, filter, e);
    } else {
      key := last;
    }
  }

  // ----- Sorting under the same budget -----

  /**
   * The sort of the entries, which is foreign: `calls` are the comparisons it makes on some entries, as pairs of
   * positions, and `arrange` is its result.
   */
  datatype Sort = Sort(calls: seq<Entry> -> seq<(nat, nat)>, arrange: seq<Entry> -> seq<Entry>) {
    /** It compares the entries it was given, and its result has the same entries. */
    ghost predicate Valid() {
      forall entries :: CallsWithin(calls(entries), |entries|) && multiset(arrange(entries)) == multiset(entries)
    }
  }

  ghost predicate CallsWithin(calls: seq<(nat, nat)>, n: nat) {
    forall k :: 0 <= k < |calls| ==> calls[k].0 < n && calls[k].1 < n
  }

  /** The work charged for comparing: both paths' lengths for every call. */
  ghost function SortCost(entries: seq<Entry>, calls: seq<(nat, nat)>): nat
    requires CallsWithin(calls, |entries|)
  {
    if calls == [] then 0
    else
      var last := calls[|calls| - 1];
      SortCost(entries, calls[..|calls| - 1]) + |entries[last.0].path| + |entries[last.1].path|
  }

  lemma SortStep(entries: seq<Entry>, calls: seq<(nat, nat)>, k: nat)
    requires CallsWithin(calls, |entries|) && k < |calls|
    ensures SortCost(entries, calls[..k + 1])
      == SortCost(entries, calls[..k]) + |entries[calls[k].0].path| + |entries[calls[k].1].path|
  {
    assert calls[..k + 1][..k] == calls[..k];
  }

  lemma {:induction false} SortCostGrows(entries: seq<Entry>, calls: seq<(nat, nat)>, k: nat)
    requires CallsWithin(calls, |entries|) && k <= |calls|
    ensures SortCost(entries, calls[..k]) <= SortCost(entries, calls)
  {
    if k == |calls| {
      assert calls[..k] == calls;
    } else {
      SortCostGrows(entries, calls[..|calls| - 1], k);
      assert calls[..|calls| - 1][..k] == calls[..k];
    }
  }

  /** The whole work of a query: the pass over the store, and then the sort. */
  ghost function WholeCost(s: State, projectId: Units, scope: Scope, filter: Filter, sort: Sort): nat
    requires sort.Valid()
  {
    var prefix := KeyPrefix(projectId, scope);
    var entries := Selected(s.order, s.files, scope, prefix, filter);
    QueryCost(s.order, prefix, filter) + SortCost(entries, sort.calls(entries))
  }

  lemma ArrangedLength(sort: Sort, entries: seq<Entry>)
    requires sort.Valid()
    ensures |sort.arrange(entries)| == |entries|
  {
    assert CallsWithin(sort.calls(entries), |entries|);
    assert |multiset(sort.arrange(entries))| == |multiset(entries)|;
  }
}
