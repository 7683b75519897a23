/** The bridge itself: stores and queries over its fields, each against the value-level specification. */
module ScopedBridge {
  import opened Text
  import opened Basics
  import opened ScopedGlob
  import opened ScopedPaths
  import opened ScopedStore

  /** An optional limit: absent means the default, anything not between one and the cap is refused. */
  function BoundedPositiveInteger(value: Option<int>, defaultValue: nat, hardCap: nat): (r: Result<nat>)
    ensures value.None? ==> r == Ok(defaultValue)
    ensures value.Some? ==> (r.Ok? <==> 1 <= value.value <= hardCap)
    ensures value.Some? && r.Ok? ==> r.value == value.value
    ensures r.Err? ==> r.code == InvalidPath
  {
    match value
    case None => Ok(defaultValue)
    case Some(v) => if v < 1 || v > hardCap then Err(InvalidPath) else Ok(v)
  }

  datatype QueryResult = QueryResult(entries: seq<Entry>, truncated: bool)

  function FirstEntries(entries: seq<Entry>, limit: nat): QueryResult {
    QueryResult(entries[..Min(|entries|, limit)], |entries| > limit)
  }

  function PrefixFilter(pathPrefix: Option<Units>): Filter {
    if pathPrefix.None? then Everything else Under(pathPrefix.value)
  }

  /** A result holds the first entries of the sorted selection, no more than the limit, and says whether some are missing. */
  ghost predicate Answers(result: QueryResult, selected: seq<Entry>, limit: int, sort: Sort) {
    && result.entries <= sort.arrange(selected) && |result.entries| == (if |selected| <= limit then |selected| else limit)
    && (result.truncated <==> |result.entries| < |selected|)
  }

  ghost predicate RegisteredProjects(registered: set<Units>) {
    forall projectId :: projectId in registered ==> NUL !in projectId
  }

  /** The objects a query's matcher writes. */
  ghost function Rows(matcher: CompiledGlob?): set<object>
    reads matcher
  {
    if matcher == null then {} else {matcher as object, matcher.previous, matcher.current}
  }

  ghost predicate MatcherFor(filter: Filter, matcher: CompiledGlob?)
    reads matcher
  {
    filter.Glob? ==> matcher != null && matcher.Valid() && matcher.source == filter.glob
  }

  /** A seed key names a registered project, a scope and an admitted path. */
  ghost predicate SeedKey(registered: set<Units>, key: Units) {
    exists projectId: Units, scope: Scope, path: Units ::
      projectId in registered && key == ScopedFileKey(projectId, scope, path) && NormalizeScopedPath(scope, path).Ok?
  }

  /** Cutting a key at its NULs finds its project, scope and path. */
  lemma SeedKeyParts(registered: set<Units>, key: Units)
    requires RegisteredProjects(registered)
    ensures var parts := SplitAt(key, NUL);
      SeedKey(registered, key) <==>
        && |parts| == 3 && parts[0] in registered
        && ((parts[1] == ScopeName(Knowledge) && NormalizeScopedPath(Knowledge, parts[2]).Ok?)
            || (parts[1] == ScopeName(Artifact) && NormalizeScopedPath(Artifact, parts[2]).Ok?))
  {
    hide SplitAt, ScopeName, NormalizeScopedPath;
    ScopeNames();
    if SeedKey(registered, key) {
      var projectId, scope, path :|
        projectId in registered && key == ScopedFileKey(projectId, scope, path) && NormalizeScopedPath(scope, path).Ok?;
      AdmittedHasNoNul(scope, path);
      KeyText(projectId, scope, path);
      SplitAtPiece(projectId, ScopeName(scope) + [NUL] + path, NUL);
      SplitAtPiece(ScopeName(scope), path, NUL);
      SplitAtPiece(path, [], NUL);
      assert SplitAt(key, NUL) == [projectId, ScopeName(scope), path];
      assert scope == Knowledge || scope == Artifact;
    }
    var parts := SplitAt(key, NUL);
    if |parts| == 3 && parts[0] in registered {
      assert parts == [parts[0], parts[1], parts[2]];
      if parts[1] == ScopeName(Knowledge) && NormalizeScopedPath(Knowledge, parts[2]).Ok? {
        SeedIsKeyed(registered, key, parts[0], Knowledge, parts[2]);
      }
      if parts[1] == ScopeName(Artifact) && NormalizeScopedPath(Artifact, parts[2]).Ok? {
        SeedIsKeyed(registered, key, parts[0], Artifact, parts[2]);
      }
    }
  }

  /** The key put together again from its parts is the key itself. */
  lemma SeedIsKeyed(registered: set<Units>, key: Units, projectId: Units, scope: Scope, path: Units)
    requires RegisteredProjects(registered) && projectId in registered && NormalizeScopedPath(scope, path).Ok?
    requires SplitAt(key, NUL) == [projectId, ScopeName(scope), path]
    ensures ScopedFileKey(projectId, scope, path) == key && WellKeyed(key)
  {
    hide SplitAt, NormalizeScopedPath, ScopeName;
    var rest := FirstPiece(key, NUL);
    var last := FirstPiece(rest, NUL);
    var end := FirstPiece(last, NUL);
    KeyText(projectId, scope, path);
  }

  lemma QueryOfNothing(files: map<Units, Units>, scope: Scope, prefix: Units, filter: Filter)
    ensures QueryCost([], prefix, filter) == 0 && Selected([], files, scope, prefix, filter) == []
  {
  }

  lemma BudgetIsNoRow(matcher: CompiledGlob?, budget: ScopedQueryBudget)
    ensures budget !in Rows(matcher)
  {
  }

  class FakeUnityBridge {
    var scopedFiles: map<Units, Units>
    /** The iteration order of `scopedFiles`: first insertion first. */
    var order: seq<Units>
    var scopedStoredUnits: int

    function Contents(): State
      reads this
    {
      State(scopedFiles, order, scopedStoredUnits)
    }

    ghost predicate Valid()
      reads this
    {
      Contents().Valid()
    }

    constructor ()
      ensures Valid() && Contents() == Run([])
    {
      scopedFiles, order, scopedStoredUnits := map[], [], 0;
    }

    method StoreScopedText(key: Units, text: Units) returns (ok: bool)
      requires Valid() && WellKeyed(key)
      modifies this
      ensures Valid()
      ensures ok <==> old(Contents()).Admits(key, text)
      ensures Contents() == old(Contents()).Store(key, text)
    {
      hide State.Valid, UnitsHeld, WellKeyed;
      StoreKeepsAccounts(Contents(), key, text);
      if |text| > MAX_VALUE_UNITS {
        return false;
      }
      var newEntry := key !in scopedFiles;
      if newEntry && |scopedFiles| >= MAX_ENTRIES {
        return false;
      }
      var projected := scopedStoredUnits + (if newEntry then |key| else 0) + |text|
        - (if newEntry then 0 else |scopedFiles[key]|);
      if projected > MAX_STORED_UNITS {
        return false;
      }
      scopedFiles := scopedFiles[key := text];
      if newEntry {
        order := order + [key];
      }
      scopedStoredUnits := projected;
      return true;
    }

    /** Storing through the tool: all checks come first, and a refusal leaves the store as it was. */
    method WriteScopedText(registered: set<Units>, projectId: Units, scope: Scope, path: Units, text: Units,
        maxChars: Option<int>)
      returns (r: Result<nat>)
      requires Valid() && RegisteredProjects(registered)
      modifies this
      ensures Valid()
      ensures r.Ok? <==>
        && (maxChars.Some? ==> 1 <= maxChars.value <= 1_048_576)
        && |text| <= (if maxChars.Some? then maxChars.value else 1_048_576)
        && projectId in registered && NormalizeScopedPath(scope, path).Ok?
        && old(Contents()).Admits(ScopedFileKey(projectId, scope, path), text)
      ensures r.Ok? ==> Contents() == old(Contents()).Store(ScopedFileKey(projectId, scope, path), text)
      ensures r.Err? ==> Contents() == old(Contents())
    {
      var limit :- BoundedPositiveInteger(maxChars, MAX_VALUE_UNITS, MAX_VALUE_UNITS);
      if |text| > limit {
        return Err(InvalidPath);
      }
      if projectId !in registered {
        return Err(InvalidPath);
      }
      var resolved :- NormalizeScopedPath(scope, path);
      var key := ScopedFileKey(projectId, scope, path);
      assert WellKeyed(key);
      var ok := StoreScopedText(key, text);
      return if ok then Ok(|text|) else Err(InvalidPath);
    }

    /** Seed data passes the same checks as files written through the tool. */
    method StoreSeed(registered: set<Units>, key: Units, text: Units) returns (ok: bool)
      requires Valid() && RegisteredProjects(registered)
      modifies this
      ensures Valid()
      ensures ok <==> |key| <= MAX_STORED_UNITS && SeedKey(registered, key) && old(Contents()).Admits(key, text)
      ensures Contents() == if ok then old(Contents()).Store(key, text) else old(Contents())
    {
      hide State.Valid, SplitAt, NormalizeScopedPath, ScopedFileKey;
      if |key| > MAX_STORED_UNITS {
        return false;
      }
      SeedKeyParts(registered, key);
      var parts := SplitAt(key, NUL);
      if |parts| != 3 || (parts[1] != ScopeName(Knowledge) && parts[1] != ScopeName(Artifact)) {
        return false;
      }
      var scope := if parts[1] == ScopeName(Knowledge) then Knowledge else Artifact;
      ScopeNames();
      if parts[0] !in registered {
        return false;
      }
      if NormalizeScopedPath(scope, parts[2]).Err? {
        return false;
      }
      SeedIsKeyed(registered, key, parts[0], scope, parts[2]);
      ok := StoreScopedText(ScopedFileKey(parts[0], scope, parts[2]), text);
    }

    /** Reading returns what the key holds, cut at the limit; an absent file reads as empty. */
    method ReadScopedText(registered: set<Units>, projectId: Units, scope: Scope, path: Units, maxChars: Option<int>)
      returns (r: Result<(Units, bool)>)
      ensures r.Ok? <==>
        (maxChars.Some? ==> 1 <= maxChars.value <= 1_048_576) && projectId in registered
        && NormalizeScopedPath(scope, path).Ok?
      ensures r.Ok? ==>
        var limit := if maxChars.Some? then maxChars.value else 65_536;
        var key := ScopedFileKey(projectId, scope, path);
        var text := TextAt(scopedFiles, key);
        && r.value.0 <= text && |r.value.0| == Min(|text|, limit)
        && (r.value.1 <==> r.value.0 != text)
    {
      var limit :- BoundedPositiveInteger(maxChars, 65_536, 1_048_576);
      if projectId !in registered {
        return Err(InvalidPath);
      }
      var resolved :- NormalizeScopedPath(scope, path);
      var key := ScopedFileKey(projectId, scope, path);
      var text := TextAt(scopedFiles, key);
      var truncated := |text| > limit;
      return Ok((if truncated then text[..limit] else text, truncated));
    }

    /**
     * Looks at one key: charges its whole cost and validates its path again. It fails when the work runs out or the
     * path does not validate, and otherwise gives the project path of a file that the query reports.
     */
    method ExamineKey(key: Units, prefix: Units, scope: Scope, filter: Filter, matcher: CompiledGlob?,
        budget: ScopedQueryBudget)
      returns (r: Result<Option<Units>>)
      requires budget.Valid() && MatcherFor(filter, matcher)
      modifies budget, Rows(matcher)
      ensures budget.Valid() && MatcherFor(filter, matcher) && Rows(matcher) == old(Rows(matcher))
      ensures r.Ok? <==>
        && KeyCost(key, prefix, filter) <= old(budget.remaining)
        && (prefix <= key ==> NormalizeScopedPath(scope, key[|prefix|..]).Ok?)
      ensures r.Ok? ==>
        && (r.value.Some? <==> prefix <= key && Accepted(filter, key[|prefix|..]))
        && (r.value.Some? ==> NormalizeScopedPath(scope, key[|prefix|..]) == Ok(r.value.value))
        && budget.remaining == old(budget.remaining) - KeyCost(key, prefix, filter)
    {
      hide Tokenize, Collapse, Language, NormalizeScopedPath;
      var paid := budget.Consume(Min(|key|, |prefix|));
      if !paid {
        return Err(InvalidPath);
      }
      if !(prefix <= key) {
        return Ok(None);
      }
      var path := key[|prefix|..];
      paid := budget.Consume(|path|);
      if !paid {
        return Err(InvalidPath);
      }
      var resolved :- NormalizeScopedPath(scope, path);
      var accepted := true;
      match filter {
        case Everything =>
        case Under(under) =>
          paid := budget.Consume(|path| + |under|);
          if !paid {
            return Err(InvalidPath);
          }
          accepted := IsUnderPrefix(path, under);
        case Glob(_) =>
          var answer := matcher.Accepts(path, budget);
          if answer.None? {
            return Err(InvalidPath);
          }
          accepted := answer.value;
      }
      return Ok(if accepted then Some(resolved) else None);
    }

    /** The charges of the comparisons, in the order the sort makes them. */
    method ChargeSort(entries: seq<Entry>, calls: seq<(nat, nat)>, budget: ScopedQueryBudget) returns (ok: bool)
      requires budget.Valid() && CallsWithin(calls, |entries|)
      modifies budget`remaining
      ensures budget.Valid()
      ensures ok <==> SortCost(entries, calls) <= old(budget.remaining)
    {
      for k := 0 to |calls|
        invariant budget.Valid()
        invariant budget.remaining == old(budget.remaining) - SortCost(entries, calls[..k])
      {
        var (left, right) := calls[k];
        SortStep(entries, calls, k);
        SortCostGrows(entries, calls, k + 1);
        var paid := budget.Consume(|entries[left].path| + |entries[right].path|);
        if !paid {
          return false;
        }
      }
      assert calls[..|calls|] == calls;
      return true;
    }

    /**
     * One query over the whole store: a pass and a sort under one budget. It succeeds exactly when both together fit
     * the work limit; the pass alone decides what is reported. `cells` counts the automaton cells it wrote.
     */
    method ScopedEntries(registered: set<Units>, projectId: Units, scope: Scope, filter: Filter, matcher: CompiledGlob?,
        sort: Sort)
      returns (r: Result<seq<Entry>>, ghost cells: nat)
      requires Valid() && RegisteredProjects(registered) && sort.Valid()
      requires MatcherFor(filter, matcher) && this !in Rows(matcher)
      modifies Rows(matcher)
      ensures cells <= MAX_SCOPED_QUERY_WORK
      ensures r.Ok? <==>
        projectId in registered && WholeCost(Contents(), projectId, scope, filter, sort) <= MAX_SCOPED_QUERY_WORK
      ensures r.Ok? ==>
        r.value == sort.arrange(Selected(order, scopedFiles, scope, KeyPrefix(projectId, scope), filter))
    {
      hide State.Valid, MatcherFor, Rows, Selected, QueryCost, SortCost, KeyPrefix;
      cells := 0;
      if projectId !in registered {
        return Err(InvalidPath), cells;
      }
      var budget := new ScopedQueryBudget();
      BudgetIsNoRow(matcher, budget);
      var passed := Pass(projectId, scope, filter, matcher, budget);
      cells := budget.cells;
      if passed.Err? {
        return Err(passed.code), cells;
      }
      var entries := passed.value;
      assert CallsWithin(sort.calls(entries), |entries|);
      var sorted := ChargeSort(entries, sort.calls(entries), budget);
      if !sorted {
        return Err(InvalidPath), cells;
      }
      return Ok(sort.arrange(entries)), cells;
    }

    /** The pass over the store. Validating stored paths again never makes it fail. */
    method Pass(projectId: Units, scope: Scope, filter: Filter, matcher: CompiledGlob?, budget: ScopedQueryBudget)
      returns (r: Result<seq<Entry>>)
      requires Valid() && NUL !in projectId && budget.Valid() && MatcherFor(filter, matcher)
      requires this !in Rows(matcher) && budget !in Rows(matcher)
      modifies budget, Rows(matcher)
      ensures budget.Valid()
      ensures r.Ok? <==> QueryCost(order, KeyPrefix(projectId, scope), filter) <= old(budget.remaining)
      ensures r.Ok? ==>
        && r.value == Selected(order, scopedFiles, scope, KeyPrefix(projectId, scope), filter)
        && budget.remaining == old(budget.remaining) - QueryCost(order, KeyPrefix(projectId, scope), filter)
    {
      hide State.Valid, MatcherFor, KeyCost, Accepted, KeyPrefix, TextAt, Rows, NormalizeScopedPath;
      QueryOfNothing(scopedFiles, scope, KeyPrefix(projectId, scope), filter);
      hide Selected, QueryCost;
      var prefix := KeyPrefix(projectId, scope);
      var entries: seq<Entry> := [];
      for i := 0 to |order|
        invariant budget.Valid() && MatcherFor(filter, matcher) && Rows(matcher) == old(Rows(matcher))
        invariant budget.remaining == old(budget.remaining) - QueryCost(order[..i], prefix, filter)
        invariant entries == Selected(order[..i], scopedFiles, scope, prefix, filter)
      {
        var key := order[i];
        QueryStep(order, i, scopedFiles, scope, prefix, filter);
        QueryCostGrows(order, i + 1, prefix, filter);
        if prefix <= key {
          PrefixedPathsResolve(Contents(), projectId, scope, key);
        }
        var answer := ExamineKey(key, prefix, scope, filter, matcher, budget);
        if answer.Err? {
          return Err(answer.code);
        }
        if answer.value.Some? {
          var path := key[|prefix|..];
          entries := entries + [Entry(path, answer.value.value, |TextAt(scopedFiles, key)|)];
        }
      }
      assert order[..|order|] == order;
      return Ok(entries);
    }

    /** Lists a scope, or what lies under one of its paths. Success turns on the whole work, the sort included. */
    method ListScoped(registered: set<Units>, projectId: Units, scope: Scope, pathPrefix: Option<Units>,
        maxEntries: Option<int>, sort: Sort)
      returns (r: Result<QueryResult>)
      requires Valid() && RegisteredProjects(registered) && sort.Valid()
      ensures r.Ok? <==>
        && (maxEntries.Some? ==> 1 <= maxEntries.value <= 1000) && projectId in registered
        && (pathPrefix.Some? ==> NormalizeScopedPath(scope, pathPrefix.value).Ok?)
        && WholeCost(Contents(), projectId, scope, PrefixFilter(pathPrefix), sort) <= MAX_SCOPED_QUERY_WORK
      ensures r.Ok? ==>
        Answers(r.value, Selected(order, scopedFiles, scope, KeyPrefix(projectId, scope), PrefixFilter(pathPrefix)),
                if maxEntries.Some? then maxEntries.value else 100, sort)
    {
      hide State.Valid, Selected, QueryCost, SortCost, NormalizeScopedPath, Sort.Valid, WholeCost;
      var limit :- BoundedPositiveInteger(maxEntries, 100, 1000);
      if projectId !in registered {
        return Err(InvalidPath);
      }
      if pathPrefix.Some? {
        var _ :- NormalizeScopedPath(scope, pathPrefix.value);
      }
      ghost var selected := Selected(order, scopedFiles, scope, KeyPrefix(projectId, scope), PrefixFilter(pathPrefix));
      ArrangedLength(sort, selected);
      var entries, _ := ScopedEntries(registered, projectId, scope, PrefixFilter(pathPrefix), null, sort);
      if entries.Err? {
        return Err(entries.code);
      }
      return Ok(FirstEntries(entries.value, limit));
    }

    method GlobScoped(registered: set<Units>, projectId: Units, scope: Scope, glob: Units, maxEntries: Option<int>,
        sort: Sort)
      returns (r: Result<QueryResult>)
      requires Valid() && RegisteredProjects(registered) && sort.Valid()
      ensures r.Ok? <==>
        && projectId in registered && NormalizeScopedGlob(scope, glob).Ok?
        && (maxEntries.Some? ==> 1 <= maxEntries.value <= 1000)
        && WholeCost(Contents(), projectId, scope, Glob(glob), sort) <= MAX_SCOPED_QUERY_WORK
      ensures r.Ok? ==>
        Answers(r.value, Selected(order, scopedFiles, scope, KeyPrefix(projectId, scope), Glob(glob)),
                if maxEntries.Some? then maxEntries.value else 100, sort)
    {
      hide State.Valid, QueryCost, SortCost, Selected, Tokenize, Collapse, ValidateScopedGlob, LiteralPrefix, Sort.Valid,
        WholeCost;
      if projectId !in registered {
        return Err(InvalidPath);
      }
      var cleanGlob :- NormalizeScopedGlob(scope, glob);
      var limit :- BoundedPositiveInteger(maxEntries, 100, 1000);
      ghost var selected := Selected(order, scopedFiles, scope, KeyPrefix(projectId, scope), Glob(glob));
      ArrangedLength(sort, selected);
      var matcher := new CompiledGlob(cleanGlob);
      var entries, _ := ScopedEntries(registered, projectId, scope, Glob(cleanGlob), matcher, sort);
      if entries.Err? {
        return Err(entries.code);
      }
      return Ok(FirstEntries(entries.value, limit));
    }
  }
}
