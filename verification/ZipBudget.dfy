/** Path and byte budgets of ZIP extraction: what the preflight charges bounds what the extraction does. */
module ZipBudget {
  import opened Text
  import opened Grammar
  import opened Identity
  import opened Basics
  import opened ZipStream
  import opened Meaning
  import Acceptance
  import RawStability

  newtype uint64 = x: int | 0 <= x < 0x1_0000_0000_0000_0000

  /** Limits after defaults: all positive. */
  datatype ZipLimits = ZipLimits(
    maxEntryBytes: int64,
    maxTotalBytes: int64,
    maxCompressionRatio: uint64,
    maxEntryNameBytes: int64,
    maxPathDepth: int64,
    maxTotalPathComponents: int64,
    maxDirectories: int64,
    maxObjects: int64)
  {
    predicate Valid() {
      && maxEntryBytes > 0 && maxTotalBytes > 0 && maxCompressionRatio > 0 && maxEntryNameBytes > 0
      && maxPathDepth > 0 && maxTotalPathComponents > 0 && maxDirectories > 0 && maxObjects > 0
    }
  }

  datatype ZipError = LimitExceeded | Traversal | Failed

  // ----- Member paths -----

  predicate IsAbsolutePathLike(rel: string) {
    || "/" <= rel || "\\\\" <= rel
    || (|rel| >= 3 && IsLetter(rel[0]) && rel[1] == ':' && (rel[2] == '/' || rel[2] == '\\'))
  }

  predicate IsDriveRelativePathLike(rel: string) {
    |rel| >= 2 && IsLetter(rel[0]) && rel[1] == ':' && (|rel| == 2 || (rel[2] != '/' && rel[2] != '\\'))
  }

  /** The filesystem's own relative cleaner. */
  function CleanRelative(rel: string): Result<string> {
    if '\0' in rel then Err(NulByte)
    else if rel == "" || rel == "." then Ok(".")
    else if IsAbsolutePathLike(rel) then Err(AbsolutePath)
    else if IsDriveRelativePathLike(rel) then Err(DriveRelativePath)
    else if '\\' in rel then Err(OutsideRoot)
    else
      match Resolve([], Split(rel), false)
      case None => Err(OutsideRoot)
      case Some(names) => Ok(if names == [] then "." else Join(names))
  }

  /** The member path of an entry name directly under the destination. */
  function ZipEntryPath(entryName: string): Option<string> {
    if entryName == "" || '\0' in entryName || '\\' in entryName || "/" <= entryName then None
    else
      var cleaned := CleanRelative(entryName);
      if cleaned.Err? || cleaned.value == "." then None
      else
        match CleanRelative(cleaned.value)
        case Err(_) => None
        case Ok(path) => Some(path)
  }

  /** An accepted member path is a nonempty list of names: it cannot climb, be rooted, or name a drive. */
  lemma MemberPathIsConfined(entryName: string)
    requires ZipEntryPath(entryName).Some?
    ensures var path := ZipEntryPath(entryName).value;
      && Names(Split(path), true) && Join(Split(path)) == path && path != "."
      && !NeedsRelativeMarker(path) && !("/" <= path)
      && CleanRelative(path) == Ok(path)
  {
    hide Split, Join;
    var first := CleanRelative(entryName).value;
    PartsAreClean(entryName, true);
    ResolveYieldsNames([], Split(entryName), false, true);
    var names := Resolve([], Split(entryName), false).value;
    NamesJoin(names, true);
    ResolveOfNames([], names, false);
    assert [] + names == names;
  }

  lemma CleanRelativeExactly(rel: string)
    requires rel != "" && '\0' !in rel && '\\' !in rel && !("/" <= rel)
    ensures CleanRelative(rel).Ok? <==> !Acceptance.StartsLikeDrive(rel) && !Acceptance.Dips(Split(rel))
    ensures CleanRelative(rel).Ok? ==>
      CleanRelative(rel).value == var names := Acceptance.Led(Split(rel)); if names == [] then "." else Join(names)
  {
    hide Resolve, Split, Join;
    Acceptance.ResolvesExactly(Split(rel), false);
    DotLeadsNowhere();
    assert forall i :: 0 <= i < |rel| ==> rel[i] in rel;
  }

  lemma DotLeadsNowhere()
    ensures Resolve([], Split("."), false) == Some([])
  {
    SplitOfPlain(".");
  }

  /**
   * Which entry names are accepted, and as which path: a nonempty relative name that never dips below its start, whose
   * components do not cancel out, and of which neither the text nor the path it leads to starts like a drive.
   */
  lemma ZipEntryPathExactly(entryName: string)
    ensures var names := Acceptance.Led(Split(entryName));
      ZipEntryPath(entryName) ==
        if entryName == "" || '\0' in entryName || '\\' in entryName || entryName[0] == '/'
          || Acceptance.StartsLikeDrive(entryName) || Acceptance.Dips(Split(entryName))
          || names == [] || Acceptance.StartsLikeDrive(names[0])
        then None
        else Some(Join(names))
  {
    hide CleanRelative, Split, Join, Acceptance.Led, Acceptance.Dips, Resolve;
    assert "/" <= entryName <==> entryName != "" && entryName[0] == '/';
    if entryName != "" && '\0' !in entryName && '\\' !in entryName && !("/" <= entryName) {
      CleanRelativeExactly(entryName);
      if CleanRelative(entryName).Ok? {
        var names := Acceptance.Led(Split(entryName));
        LedNames(entryName);
        if names != [] {
          NamesJoin(names, true);
          Acceptance.FirstChars(names);
          CleanRelativeExactly(Join(names));
          NamesLeadToThemselves(names);
        }
      }
    }
  }

  lemma LedNames(rel: string)
    requires '\0' !in rel && '\\' !in rel && !Acceptance.Dips(Split(rel))
    ensures Names(Acceptance.Led(Split(rel)), true) && Names(Acceptance.Led(Split(rel)), false)
  {
    hide Split, Acceptance.Led, Acceptance.Dips;
    Acceptance.ResolvesExactly(Split(rel), false);
    PartsAreClean(rel, true);
    ResolveYieldsNames([], Split(rel), false, true);
  }

  lemma NamesLeadToThemselves(names: seq<string>)
    requires Names(names, true)
    ensures !Acceptance.Dips(names) && Acceptance.Led(names) == names
  {
    hide Acceptance.Led, Acceptance.Dips;
    ResolveOfNames([], names, false);
    assert [] + names == names;
    Acceptance.ResolvesExactly(names, false);
  }

  /** An accepted path leads where its entry name leads, from every node of every tree without links. */
  lemma MemberPathKeepsPlace<N(!new)>(entryName: string, n: N, up: N -> N, down: (N, string) -> N)
    requires ZipEntryPath(entryName).Some? && LinkFree(up, down)
    ensures Walk(n, Split(entryName), up, down) == Walk(n, Split(ZipEntryPath(entryName).value), up, down)
  {
    hide ZipEntryPath, Split, Join, Walk, Acceptance.Led, Acceptance.Dips;
    ZipEntryPathExactly(entryName);
    var names := Acceptance.Led(Split(entryName));
    LedNames(entryName);
    NamesJoin(names, true);
    Acceptance.LedKeepsPlace(Split(entryName), n, up, down);
  }

  /** An entry that climbs is refused, and so is one that only turns into a drive-like path by cleaning. */
  lemma RefusedEntries()
    ensures ZipEntryPath("../evil").None? && ZipEntryPath("x/../C:foo").None? && ZipEntryPath("a/../b") == Some("b")
  {
    hide ZipEntryPath, Split;
    SplitOfPlain("evil");
    assert "../evil" == ".." + "/" + "evil";
    SplitAfterSlash("..", "evil");
    ClimbIsRefused("../evil", "evil");
    DownAndUp("x", "C:foo", "x/../C:foo");
    DownAndUp("a", "b", "a/../b");
  }

  lemma ClimbIsRefused(entryName: string, name: string)
    requires Split(entryName) == ["..", name]
    ensures ZipEntryPath(entryName).None?
  {
    hide ZipEntryPath, Split, Acceptance.Led, Acceptance.Dips;
    Acceptance.ResolvesExactly(["..", name], false);
    ZipEntryPathExactly(entryName);
  }

  lemma DownAndUp(a: string, b: string, entryName: string)
    requires entryName == a + "/" + (".." + "/" + b) && '/' !in a && '/' !in b
    requires a != "" && !IsDots(a) && b != "" && !IsDots(b)
    requires '\0' !in entryName && '\\' !in entryName && entryName[0] != '/'
    requires !Acceptance.StartsLikeDrive(entryName)
    ensures ZipEntryPath(entryName) == if Acceptance.StartsLikeDrive(b) then None else Some(b)
  {
    hide ZipEntryPath, Split, Acceptance.Led, Acceptance.Dips;
    SplitOfPlain(b);
    SplitAfterSlash("..", b);
    SplitAfterSlash(a, ".." + "/" + b);
    assert [a] + ([".."] + [b]) == [a, "..", b];
    RawStability.ShortResolve(a, b);
    Acceptance.ResolvesExactly([a, "..", b], false);
    ZipEntryPathExactly(entryName);
  }

  function ZipPathDepth(rel: string): nat {
    if rel == "." then 0 else Slashes(rel) + 1
  }

  function Slashes(s: string): nat {
    if s == "" then 0 else (if s[0] == '/' then 1 else 0) + Slashes(s[1..])
  }

  /** Counting slashes counts components. */
  lemma {:induction false} SlashesCountParts(s: string)
    ensures Slashes(s) + 1 == |Split(s)|
    ensures Slashes(s) <= |s|
  {
    if s != "" {
      SlashesCountParts(s[1..]);
    }
  }

  // ----- The path budget -----

  function DirectoryPart(depth: nat, directory: bool): int {
    if directory then depth else depth - 1
  }

  class ZipPathBudget {
    const limits: ZipLimits
    const destinationDepth: int64
    var components: int64
    var directories: int64
    var objects: int64

    ghost predicate Valid()
      reads this
    {
      && limits.Valid() && destinationDepth >= 0
      && 0 <= components <= limits.maxTotalPathComponents
      && 0 <= directories <= limits.maxDirectories
      && 0 <= objects <= limits.maxObjects
    }

    constructor (limits: ZipLimits, destinationDepth: int64)
      requires limits.Valid() && destinationDepth >= 0
      ensures Valid() && this.limits == limits && this.destinationDepth == destinationDepth
      ensures components == directories == objects == 0
    {
      this.limits, this.destinationDepth := limits, destinationDepth;
      components, directories, objects := 0, 0, 0;
    }

    /**
     * Charges one path. In machine integers, it accepts exactly when the unbounded sums stay within every limit;
     * a refusal charges nothing.
     */
    method Add(depth: int64, directory: bool, destination: bool) returns (ok: bool)
      requires Valid() && depth >= 0 && (depth > 0 || directory)
      modifies this
      ensures Valid()
      ensures ok <==>
        && (if destination then 0 else destinationDepth as int) + depth as int <= limits.maxPathDepth as int
        && old(components) as int + depth as int <= limits.maxTotalPathComponents as int
        && old(directories) as int + DirectoryPart(depth as int, directory) <= limits.maxDirectories as int
        && old(objects) as int + depth as int <= limits.maxObjects as int
      ensures ok ==>
        && components as int == old(components) as int + depth as int
        && directories as int == old(directories) as int + DirectoryPart(depth as int, directory)
        && objects as int == old(objects) as int + depth as int
      ensures !ok ==> components == old(components) && directories == old(directories) && objects == old(objects)
    {
      var parentDepth := destinationDepth;
      if destination {
        parentDepth := 0;
      }
      if parentDepth > limits.maxPathDepth || depth > limits.maxPathDepth - parentDepth {
        return false;
      }
      var dirs := depth;
      if !directory {
        dirs := dirs - 1;
      }
      if depth > limits.maxTotalPathComponents - components
        || dirs > limits.maxDirectories - directories
        || depth > limits.maxObjects - objects
      {
        return false;
      }
      components := components + depth;
      directories := directories + dirs;
      objects := objects + depth;
      return true;
    }
  }

  // ----- Entries -----

  /**
   * A member as the archive's metadata declares it, and what extracting it meets: whether its files or directories open,
   * what its reader answers, how many bytes its destination takes, and whether closing that succeeds.
   */
  datatype Entry = Entry(
    name: string,
    directory: bool,
    regular: bool,
    uncompressed: uint64,
    compressed: uint64,
    opens: bool,
    stream: seq<Answer>,
    space: nat,
    closes: bool)

  function Depth(e: Entry): nat {
    if ZipEntryPath(e.name).Some? then ZipPathDepth(ZipEntryPath(e.name).value) else 0
  }

  /** The directory components an entry's extraction walks: its own path, or its parent's. */
  function DirectoryDepth(e: Entry): int {
    DirectoryPart(Depth(e), e.directory)
  }

  predicate RatioFits(e: Entry, limits: ZipLimits) {
    e.uncompressed > 0 ==> e.compressed > 0 && e.uncompressed as int <= limits.maxCompressionRatio as int * e.compressed as int
  }

  /** The test the code makes, in machine integers and without a product that could overflow. */
  predicate RatioRejected(e: Entry, limits: ZipLimits) {
    e.uncompressed > 0 && (e.compressed == 0 || (e.uncompressed - 1) / e.compressed >= limits.maxCompressionRatio)
  }

  predicate EntryFits(e: Entry, limits: ZipLimits, destinationDepth: int64) {
    && |e.name| <= limits.maxEntryNameBytes as int
    && ZipEntryPath(e.name).Some? && (e.regular || e.directory)
    && destinationDepth as int + Depth(e) <= limits.maxPathDepth as int
    && e.uncompressed as int <= limits.maxEntryBytes as int
    && RatioFits(e, limits)
  }

  function TotalDepth(entries: seq<Entry>): nat {
    if entries == [] then 0 else TotalDepth(entries[..|entries| - 1]) + Depth(entries[|entries| - 1])
  }

  function TotalDirectories(entries: seq<Entry>): int {
    if entries == [] then 0 else TotalDirectories(entries[..|entries| - 1]) + DirectoryDepth(entries[|entries| - 1])
  }

  function TotalDeclared(entries: seq<Entry>): nat {
    if entries == [] then 0 else TotalDeclared(entries[..|entries| - 1]) + entries[|entries| - 1].uncompressed as int
  }

  lemma {:induction false} TotalsGrow(entries: seq<Entry>, k: nat)
    requires k <= |entries|
    requires forall i :: 0 <= i < |entries| ==> ZipEntryPath(entries[i].name).Some?
    ensures TotalDepth(entries[..k]) <= TotalDepth(entries)
    ensures 0 <= TotalDirectories(entries[..k]) <= TotalDirectories(entries)
    ensures TotalDeclared(entries[..k]) <= TotalDeclared(entries)
  {
    if entries == [] {
    } else if k == |entries| {
      assert entries[..k] == entries;
      var init := entries[..k - 1];
      TotalsGrow(init, k - 1);
      DepthIsPositive(entries[k - 1]);
    } else {
      var n := |entries| - 1;
      TotalsGrow(entries[..n], k);
      assert entries[..n][..k] == entries[..k];
      DepthIsPositive(entries[n]);
    }
  }

  lemma DepthIsPositive(e: Entry)
    requires ZipEntryPath(e.name).Some?
    ensures Depth(e) >= 1 && Depth(e) == |Split(ZipEntryPath(e.name).value)|
    ensures DirectoryDepth(e) >= 0
  {
    MemberPathIsConfined(e.name);
    SlashesCountParts(ZipEntryPath(e.name).value);
  }

  /** The overflow-free form of the compression test. */
  lemma RatioTest(expanded: nat, compressed: nat, ratio: nat)
    requires expanded > 0 && compressed > 0
    ensures (expanded - 1) / compressed >= ratio <==> expanded > ratio * compressed
  {
    var q, r := (expanded - 1) / compressed, (expanded - 1) % compressed;
    assert expanded - 1 == q * compressed + r && r < compressed;
    if q >= ratio {
      assert q * compressed >= ratio * compressed;
    } else {
      assert (q + 1) * compressed <= ratio * compressed;
      assert (q + 1) * compressed == q * compressed + compressed;
    }
  }

  /** Everything the preflight demands, over the whole archive at once. */
  ghost predicate Admissible(entries: seq<Entry>, limits: ZipLimits, destinationDepth: int64) {
    && (forall i :: 0 <= i < |entries| ==> EntryFits(entries[i], limits, destinationDepth))
    && destinationDepth as int <= limits.maxPathDepth as int
    && destinationDepth as int + TotalDepth(entries) <= limits.maxTotalPathComponents as int
    && destinationDepth as int + TotalDirectories(entries) <= limits.maxDirectories as int
    && destinationDepth as int + TotalDepth(entries) <= limits.maxObjects as int
    && TotalDeclared(entries) <= limits.maxTotalBytes as int
  }

  lemma PathIsShort(e: Entry)
    requires ZipEntryPath(e.name).Some?
    ensures Depth(e) <= |e.name|
  {
    hide Split, Join;
    var names := Resolve([], Split(e.name), false).value;
    MemberPathIsConfined(e.name);
    ResolveShrinks([], Split(e.name), false);
    JoinSize(Split(e.name));
    JoinOfSplit(e.name);
    PartsAreClean(e.name, true);
    ResolveYieldsNames([], Split(e.name), false, true);
    NamesJoin(names, true);
    ResolveOfNames([], names, false);
    assert [] + names == names;
    JoinSize(names);
    SizeAtLeast(names);
    SlashesCountParts(Join(names));
  }

  lemma {:induction false} SizeAtLeast(names: seq<string>)
    requires Names(names, true)
    ensures Size(names) >= 2 * |names|
  {
    if names != [] {
      SizeAtLeast(names[1..]);
    }
  }

  /** Checks and charges one entry; `sum` is what entries declare so far. */
  method CheckEntry(e: Entry, budget: ZipPathBudget, declared: uint64) returns (error: Option<ZipError>, sum: uint64)
    requires budget.Valid() && declared as int <= budget.limits.maxTotalBytes as int
    modifies budget
    ensures budget.Valid()
    ensures error.None? <==>
      && EntryFits(e, budget.limits, budget.destinationDepth)
      && old(budget.components) as int + Depth(e) <= budget.limits.maxTotalPathComponents as int
      && old(budget.directories) as int + DirectoryDepth(e) <= budget.limits.maxDirectories as int
      && old(budget.objects) as int + Depth(e) <= budget.limits.maxObjects as int
      && declared as int + e.uncompressed as int <= budget.limits.maxTotalBytes as int
    ensures error.None? ==>
      && budget.components as int == old(budget.components) as int + Depth(e)
      && budget.directories as int == old(budget.directories) as int + DirectoryDepth(e)
      && budget.objects as int == old(budget.objects) as int + Depth(e)
      && sum as int == declared as int + e.uncompressed as int
  {
    hide ZipEntryPath, ZipPathDepth, RatioFits, RatioRejected;
    sum := declared;
    var limits := budget.limits;
    if |e.name| > limits.maxEntryNameBytes as int {
      return Some(LimitExceeded), sum;
    }
    var path := ZipEntryPath(e.name);
    if path.None? {
      return Some(Traversal), sum;
    }
    if !e.regular && !e.directory {
      return Some(Traversal), sum;
    }
    DepthIsPositive(e);
    PathIsShort(e);
    var charged := budget.Add(Depth(e) as int64, e.directory, false);
    if !charged {
      return Some(LimitExceeded), sum;
    }
    var expanded := e.uncompressed;
    if expanded > limits.maxEntryBytes as uint64 || expanded > limits.maxTotalBytes as uint64 - declared {
      return Some(LimitExceeded), sum;
    }
    sum := declared + expanded;
    RatioIsTested(e, limits);
    if RatioRejected(e, limits) {
      return Some(LimitExceeded), sum;
    }
    return None, sum;
  }

  /** Accepts an archive exactly when all of it is admissible, and has then charged it to the unit. */
  method Preflight(entries: seq<Entry>, limits: ZipLimits, destinationDepth: int64)
    returns (error: Option<ZipError>, budget: ZipPathBudget)
    requires limits.Valid() && destinationDepth >= 0
    ensures error.None? <==> Admissible(entries, limits, destinationDepth)
    ensures error.None? ==>
      && budget.components as int == destinationDepth as int + TotalDepth(entries)
      && budget.directories as int == destinationDepth as int + TotalDirectories(entries)
      && budget.directories <= limits.maxDirectories
  {
    hide EntryFits, Depth, DirectoryDepth, TotalDepth, TotalDirectories, TotalDeclared;
    budget := new ZipPathBudget(limits, destinationDepth);
    var charged := budget.Add(destinationDepth, true, true);
    DestinationFits(entries, limits, destinationDepth);
    NoEntries();
    if !charged {
      return Some(LimitExceeded), budget;
    }
    var declared: uint64 := 0;
    assert entries[..0] == [];
    for k := 0 to |entries|
      invariant fresh(budget) && budget.Valid() && budget.limits == limits && budget.destinationDepth == destinationDepth
      invariant forall i :: 0 <= i < k ==> EntryFits(entries[i], limits, destinationDepth)
      invariant budget.components as int == destinationDepth as int + TotalDepth(entries[..k])
      invariant budget.objects == budget.components
      invariant budget.directories as int == destinationDepth as int + TotalDirectories(entries[..k])
      invariant declared as int == TotalDeclared(entries[..k]) <= limits.maxTotalBytes as int
    {
      UpTo(entries, k);
      PrefixesAdmissible(entries, k + 1, limits, destinationDepth);
      error, declared := CheckEntry(entries[k], budget, declared);
      if error.Some? {
        return;
      }
    }
    assert entries[..|entries|] == entries;
    return None, budget;
  }

  lemma NoEntries()
    ensures TotalDepth([]) == 0 && TotalDirectories([]) == 0 && TotalDeclared([]) == 0
  {
  }

  lemma DestinationFits(entries: seq<Entry>, limits: ZipLimits, destinationDepth: int64)
    ensures Admissible(entries, limits, destinationDepth) ==>
      && destinationDepth as int <= limits.maxPathDepth as int
      && destinationDepth as int <= limits.maxTotalPathComponents as int
      && destinationDepth as int <= limits.maxDirectories as int
      && destinationDepth as int <= limits.maxObjects as int
  {
    if Admissible(entries, limits, destinationDepth) {
      TotalsGrow(entries, 0);
    }
  }

  lemma UpTo(entries: seq<Entry>, k: nat)
    requires k < |entries|
    ensures TotalDepth(entries[..k + 1]) == TotalDepth(entries[..k]) + Depth(entries[k])
    ensures TotalDirectories(entries[..k + 1]) == TotalDirectories(entries[..k]) + DirectoryDepth(entries[k])
    ensures TotalDeclared(entries[..k + 1]) == TotalDeclared(entries[..k]) + entries[k].uncompressed as int
  {
    assert entries[..k + 1][..k] == entries[..k];
  }

  /** An admissible archive keeps every prefix within the cumulative limits. */
  lemma PrefixesAdmissible(entries: seq<Entry>, k: nat, limits: ZipLimits, destinationDepth: int64)
    requires k <= |entries|
    ensures Admissible(entries, limits, destinationDepth) ==>
      && destinationDepth as int + TotalDepth(entries[..k]) <= limits.maxTotalPathComponents as int
      && destinationDepth as int + TotalDirectories(entries[..k]) <= limits.maxDirectories as int
      && destinationDepth as int + TotalDepth(entries[..k]) <= limits.maxObjects as int
      && TotalDeclared(entries[..k]) <= limits.maxTotalBytes as int
  {
    if Admissible(entries, limits, destinationDepth) {
      TotalsGrow(entries, k);
    }
  }

  lemma RatioIsTested(e: Entry, limits: ZipLimits)
    ensures RatioFits(e, limits) <==> !RatioRejected(e, limits)
    ensures RatioRejected(e, limits) <==>
      e.uncompressed as int > limits.maxCompressionRatio as int * e.compressed as int
  {
    if e.uncompressed > 0 && e.compressed > 0 {
      RatioTest(e.uncompressed as int, e.compressed as int, limits.maxCompressionRatio as int);
    }
  }

  // ----- Parents -----

  /** Where the last slash of a text is, or -1. */
  function LastSlash(s: string): (r: int)
    ensures -1 <= r < |s|
    ensures r >= 0 ==> s[r] == '/'
    ensures forall i :: r < i < |s| ==> s[i] != '/'
  {
    if s == "" then -1 else if s[|s| - 1] == '/' then |s| - 1 else LastSlash(s[..|s| - 1])
  }

  /** The directory of a cleaned member path. */
  function ParentPath(path: string): string {
    if LastSlash(path) < 0 then "." else path[..LastSlash(path)]
  }

  function BaseName(path: string): string {
    path[LastSlash(path) + 1..]
  }

  lemma {:induction false} SlashesAppend(a: string, b: string)
    ensures Slashes(a + b) == Slashes(a) + Slashes(b)
  {
    if a == "" {
      assert a + b == b;
    } else {
      assert (a + b)[1..] == a[1..] + b;
      SlashesAppend(a[1..], b);
    }
  }

  lemma {:induction false} NoSlashes(s: string)
    requires '/' !in s
    ensures Slashes(s) == 0
  {
    if s != "" {
      NoSlashes(s[1..]);
    }
  }

  lemma ChildDepth(parent: string, base: string)
    requires '/' !in base
    ensures Slashes(parent + "/" + base) == Slashes(parent) + 1
  {
    hide Slashes;
    assert parent + "/" + base == parent + ("/" + base);
    SlashesAppend(parent, "/" + base);
    SlashesAppend("/", base);
    OneSlash();
    NoSlashes(base);
  }

  lemma ChildParts(parent: string, base: string)
    requires '/' !in base && Names(Split(parent + "/" + base), true)
    ensures Name(base, true) && parent != "."
  {
    hide Split, Name;
    SplitAppend(parent, base);
    SplitOfPlain(base);
    SplitOfPlain(".");
    var parts := Split(parent) + [base];
    assert parts[|parts| - 1] == base && parts[0] == Split(parent)[0];
    DotIsNoName();
  }

  lemma DotIsNoName()
    ensures !Name(".", true)
  {
  }

  lemma CutAtSlash(path: string)
    ensures '/' !in BaseName(path)
    ensures LastSlash(path) < 0 ==> ParentPath(path) == "." && BaseName(path) == path
    ensures LastSlash(path) >= 0 ==> path == ParentPath(path) + "/" + BaseName(path)
  {
    hide LastSlash;
  }

  /** The parent of a member path is one component shorter, and path and parent differ by the base name. */
  lemma ParentIsShallower(path: string)
    requires Names(Split(path), true) && path != "."
    ensures ZipPathDepth(ParentPath(path)) == ZipPathDepth(path) - 1
    ensures path == if ParentPath(path) == "." then BaseName(path) else ParentPath(path) + "/" + BaseName(path)
    ensures Name(BaseName(path), true)
  {
    hide Split, Slashes, Name, LastSlash, ParentPath, BaseName;
    var parent, base := ParentPath(path), BaseName(path);
    CutAtSlash(path);
    if LastSlash(path) < 0 {
      NoSlashes(base);
      SplitOfPlain(path);
      assert Split(path)[0] == path;
    } else {
      ChildDepth(parent, base);
      ChildParts(parent, base);
    }
  }

  lemma OneSlash()
    ensures Slashes("/") == 1
  {
    assert "/"[1..] == "";
  }

  // ----- Extraction -----

  /**
   * When one member is extracted: its files open and close, its reader ends properly within the limit or stalls just there,
   * and the destination takes what is copied.
   */
  lemma ExtractedExactly(e: Entry, limit: nat)
    ensures Extracted(e, limit).1 <==>
      && e.opens && e.closes && Min(|Data(e.stream)|, limit) <= e.space
      && (|| StallsAt(e.stream, limit)
          || (End(e.stream) == Eof && |Data(e.stream)| <= limit
              && (Copied(e.stream, limit).stop == Full || Quiet(AfterEnd(e.stream)))))
    ensures e.opens ==> Extracted(e, limit).0 == Data(e.stream)[..Min(Min(|Data(e.stream)|, limit), e.space)]
    ensures !e.opens ==> Extracted(e, limit).0 == []
  {
    hide Copied, Succeeds, StallsAt;
    SucceedsExactly(e.stream, limit);
    CopiedIsPrefix(e.stream, limit);
  }

  /** What extracting one member leaves: the bytes written, and whether it succeeded. */
  function Extracted(e: Entry, limit: nat): (seq<byte>, bool) {
    if !e.opens then ([], false)
    else
      var copy := Copied(e.stream, limit);
      if |copy.bytes| > e.space then (copy.bytes[..e.space], false)
      else (copy.bytes, Succeeds(e.stream, limit) && e.closes)
  }

  /**
   * Copies one member into a new file: a limited copy, then a probe for one byte more. The destination accepts no write
   * beyond the limit at any time; after a failure the file is removed.
   */
  method ExtractFile(e: Entry, limit: int64, buffer: int64)
    returns (n: int64, failed: bool, kept: Option<seq<byte>>)
    requires limit >= 0 && buffer > 0
    ensures 0 <= n <= limit
    ensures var (bytes, ok) := Extracted(e, limit as int); n as int == |bytes| && failed == !ok
    ensures kept == if failed then None else Some(Extracted(e, limit as int).0)
    ensures kept.Some? ==> |kept.value| == n as int && Holds(e, kept.value)
  {
    hide Copied, Served, Holds;
    if !e.opens {
      return 0, true, None;
    }
    var source := new Source(e.stream);
    var destination := new Destination(limit as int, e.space);
    n, failed := LimitedCopy(source, destination, limit, buffer);
    if !failed {
      ProbeIsQuiet(source.answers);
      var probe, signal := source.Read(1);
      failed := |probe| != 0 || signal == Broken;
    }
    if !e.closes {
      failed := true;
    }
    kept := if failed then None else Some(destination.contents);
    if Extracted(e, limit as int).1 {
      ExtractedHolds(e, limit as int);
    }
  }

  lemma ProbeIsQuiet(answers: seq<Answer>)
    ensures var (probe, signal, _) := Served(answers, 1);
      Quiet(answers) <==> probe == [] && signal != Broken
  {
  }

  function Sum(sizes: seq<int64>): int {
    if sizes == [] then 0 else Sum(sizes[..|sizes| - 1]) + sizes[|sizes| - 1] as int
  }

  lemma SumStep(sizes: seq<int64>, n: int64)
    ensures Sum(sizes + [n]) == Sum(sizes) + n as int
  {
    assert (sizes + [n])[..|sizes|] == sizes;
  }

  lemma MemberDepth(e: Entry)
    requires ZipEntryPath(e.name).Some?
    ensures var path := ZipEntryPath(e.name).value;
      ZipPathDepth(if e.directory then path else ParentPath(path)) == DirectoryDepth(e)
  {
    hide ZipEntryPath, ZipPathDepth, ParentPath;
    MemberPathIsConfined(e.name);
    ParentIsShallower(ZipEntryPath(e.name).value);
  }

  lemma HasPath(entries: seq<Entry>, k: nat, limits: ZipLimits, destinationDepth: int64)
    requires Admissible(entries, limits, destinationDepth) && k < |entries|
    ensures ZipEntryPath(entries[k].name).Some?
  {
    hide ZipEntryPath;
    assert EntryFits(entries[k], limits, destinationDepth);
  }

  /** What a member's file holds after a successful extraction: its first bytes, and all of them if its reader can be trusted. */
  ghost predicate Holds(e: Entry, bytes: seq<byte>) {
    && bytes <= Data(e.stream)
    && (StallsOnlyAtTheEnd(e.stream) ==> bytes == Data(e.stream))
  }

  lemma ExtractedHolds(e: Entry, limit: nat)
    requires Extracted(e, limit).1
    ensures Holds(e, Extracted(e, limit).0)
  {
    hide Copied, StallsOnlyAtTheEnd;
    CopiedIsPrefix(e.stream, limit);
    TrustedExactly(e.stream);
  }

  // ----- The second pass -----

  /** What one member writes under an allowance, and whether it succeeds; a directory only has to open. */
  function MemberResult(e: Entry, allowance: nat): (seq<byte>, bool) {
    if e.directory then ([], e.opens) else Extracted(e, allowance)
  }

  /** The file a member leaves: none for a directory or after a failure. */
  function KeptFile(e: Entry, result: (seq<byte>, bool)): Option<seq<byte>> {
    if e.directory || !result.1 then None else Some(result.0)
  }

  /** What a member may write after `written` bytes. */
  function Allowance(limits: ZipLimits, written: nat): nat
    requires limits.Valid()
  {
    if written >= limits.maxTotalBytes as int then 0
    else Min(limits.maxEntryBytes as int, limits.maxTotalBytes as int - written)
  }

  /** The bytes written by all these members, each under the allowance that the earlier ones leave. */
  function Written(entries: seq<Entry>, limits: ZipLimits): nat
    requires limits.Valid()
  {
    if entries == [] then 0
    else
      var earlier := Written(entries[..|entries| - 1], limits);
      earlier + |MemberResult(entries[|entries| - 1], Allowance(limits, earlier)).0|
  }

  function ResultAt(entries: seq<Entry>, k: nat, limits: ZipLimits): (seq<byte>, bool)
    requires limits.Valid() && k < |entries|
  {
    MemberResult(entries[k], Allowance(limits, Written(entries[..k], limits)))
  }

  lemma MemberIsBounded(e: Entry, allowance: nat)
    ensures |MemberResult(e, allowance).0| <= allowance
  {
    hide Copied;
    CopiedIsPrefix(e.stream, allowance);
  }

  lemma {:induction false} WrittenIsBounded(entries: seq<Entry>, limits: ZipLimits)
    requires limits.Valid()
    ensures Written(entries, limits) <= limits.maxTotalBytes as int
  {
    hide MemberResult;
    if entries != [] {
      var init := entries[..|entries| - 1];
      WrittenIsBounded(init, limits);
      MemberIsBounded(entries[|entries| - 1], Allowance(limits, Written(init, limits)));
    }
  }

  lemma WrittenStep(entries: seq<Entry>, k: nat, limits: ZipLimits)
    requires limits.Valid() && k < |entries|
    ensures Written(entries[..k + 1], limits) == Written(entries[..k], limits) + |ResultAt(entries, k, limits).0|
    ensures Written(entries[..k + 1], limits) <= limits.maxTotalBytes as int
    ensures |ResultAt(entries, k, limits).0| <= limits.maxEntryBytes as int
    ensures ResultAt(entries, k, limits) == MemberResult(entries[k], Allowance(limits, Written(entries[..k], limits)))
  {
    hide MemberResult;
    assert entries[..k + 1][..k] == entries[..k];
    WrittenIsBounded(entries[..k + 1], limits);
    MemberIsBounded(entries[k], Allowance(limits, Written(entries[..k], limits)));
  }

  /** Extracts one member: a directory is walked and opened, a file is copied under its parent. */
  method ExtractMember(e: Entry, remaining: int64, buffer: int64)
    returns (n: int64, failed: bool, kept: Option<seq<byte>>, walked: int)
    requires ZipEntryPath(e.name).Some? && remaining >= 0 && buffer > 0
    ensures n >= 0 && walked == DirectoryDepth(e)
    ensures var (bytes, ok) := MemberResult(e, remaining as int);
      n as int == |bytes| && failed == !ok && kept == KeptFile(e, (bytes, ok))
    ensures kept.Some? ==> Holds(e, kept.value)
  {
    hide ZipEntryPath, ZipPathDepth, ParentPath, Extracted, Holds, DirectoryDepth;
    MemberDepth(e);
    var path := ZipEntryPath(e.name).value;
    if e.directory {
      return 0, !e.opens, None, ZipPathDepth(path);
    }
    walked := ZipPathDepth(ParentPath(path));
    n, failed, kept := ExtractFile(e, remaining, buffer);
  }

  /**
   * The second pass over an archive that passed the preflight. `files` are the members' files, `sizes` the bytes written
   * for each member reached, and `walked` counts the directory components handed to the walk. It fails exactly when some
   * member does, and stops there. The bounds do not depend on what the members declared, nor on what their readers do.
   */
  method Extract(entries: seq<Entry>, limits: ZipLimits, destinationDepth: int64, buffer: int64)
    returns (failed: bool, sizes: seq<int64>, files: seq<Option<seq<byte>>>, walked: int)
    requires limits.Valid() && destinationDepth >= 0 && Admissible(entries, limits, destinationDepth) && buffer > 0
    ensures failed <==> exists i :: 0 <= i < |entries| && !ResultAt(entries, i, limits).1
    ensures |sizes| == |files| <= |entries|
    ensures forall i :: 0 <= i < |sizes| - 1 ==> ResultAt(entries, i, limits).1
    ensures if failed then |sizes| > 0 && !ResultAt(entries, |sizes| - 1, limits).1 else |sizes| == |entries|
    ensures forall i :: 0 <= i < |sizes| ==> sizes[i] as int == |ResultAt(entries, i, limits).0|
    ensures forall i :: 0 <= i < |sizes| ==> 0 <= sizes[i] <= limits.maxEntryBytes
    ensures Sum(sizes) == Written(entries[..|sizes|], limits) <= limits.maxTotalBytes as int
    ensures forall i :: 0 <= i < |files| ==> files[i] == KeptFile(entries[i], ResultAt(entries, i, limits))
    ensures forall i :: 0 <= i < |files| && files[i].Some? ==> Holds(entries[i], files[i].value)
    ensures walked == destinationDepth as int + TotalDirectories(entries[..|sizes|]) <= limits.maxDirectories as int
  {
    hide Admissible, DirectoryDepth, TotalDepth, TotalDirectories, TotalDeclared, MemberResult, Holds, ZipEntryPath, Sum,
      Written, ResultAt, KeptFile;
    NoEntries();
    NothingWritten(limits);
    assert entries[..0] == [];
    sizes, files := [], [];
    walked := destinationDepth as int;
    DestinationFits(entries, limits, destinationDepth);
    var total: int64 := 0;
    for k := 0 to |entries|
      invariant |sizes| == |files| == k
      invariant forall i :: 0 <= i < k ==> ResultAt(entries, i, limits).1
      invariant forall i :: 0 <= i < k ==> sizes[i] as int == |ResultAt(entries, i, limits).0|
      invariant forall i :: 0 <= i < k ==> 0 <= sizes[i] <= limits.maxEntryBytes
      invariant forall i :: 0 <= i < k ==> files[i] == KeptFile(entries[i], ResultAt(entries, i, limits))
      invariant forall i :: 0 <= i < k && files[i].Some? ==> Holds(entries[i], files[i].value)
      invariant 0 <= total <= limits.maxTotalBytes && total as int == Sum(sizes) == Written(entries[..k], limits)
      invariant walked == destinationDepth as int + TotalDirectories(entries[..k]) <= limits.maxDirectories as int
    {
      UpTo(entries, k);
      PrefixesAdmissible(entries, k + 1, limits, destinationDepth);
      HasPath(entries, k, limits, destinationDepth);
      WrittenStep(entries, k, limits);
      var remaining := if limits.maxEntryBytes <= limits.maxTotalBytes - total then limits.maxEntryBytes
        else limits.maxTotalBytes - total;
      var n, broken, kept, steps := ExtractMember(entries[k], remaining, buffer);
      SumStep(sizes, n);
      total := total + n;
      walked := walked + steps;
      sizes, files := sizes + [n], files + [kept];
      if broken {
        return true, sizes, files, walked;
      }
    }
    assert entries[..|entries|] == entries;
    return false, sizes, files, walked;
  }

  lemma NothingWritten(limits: ZipLimits)
    requires limits.Valid()
    ensures Sum([]) == 0 && Written([], limits) == 0
  {
  }

  // ----- Archives whose readers are in order -----

  /** A member that meets no trouble of its own: what remains is whether its data fits. */
  ghost predicate InOrder(e: Entry) {
    && e.opens
    && (e.directory || (e.closes && ReadsToTheEnd(e.stream) && |Data(e.stream)| <= e.space))
  }

  /** A reader that never answers empty without an end, ends properly, and then has no more to say. */
  predicate ReadsToTheEnd(answers: seq<Answer>) {
    NeverIdle(answers) && End(answers) == Eof && Quiet(AfterEnd(answers))
  }

  function Content(e: Entry): seq<byte> {
    if e.directory then [] else Data(e.stream)
  }

  function TotalContent(entries: seq<Entry>): nat {
    if entries == [] then 0 else TotalContent(entries[..|entries| - 1]) + |Content(entries[|entries| - 1])|
  }

  lemma MemberInOrder(e: Entry, allowance: nat)
    requires InOrder(e)
    ensures MemberResult(e, allowance).1 <==> |Content(e)| <= allowance
    ensures MemberResult(e, allowance).1 ==> MemberResult(e, allowance).0 == Content(e)
  {
    hide Copied, Succeeds, StallsAt, NeverIdle;
    if !e.directory {
      NeverIdleNeverStalls(e.stream, allowance);
      SucceedsExactly(e.stream, allowance);
      CopiedIsPrefix(e.stream, allowance);
      if Succeeds(e.stream, allowance) {
        CompleteExactly(e.stream, allowance);
      }
    }
  }

  ghost predicate ContentFits(entries: seq<Entry>, limits: ZipLimits) {
    && TotalContent(entries) <= limits.maxTotalBytes as int
    && forall i :: 0 <= i < |entries| ==> |Content(entries[i])| <= limits.maxEntryBytes as int
  }

  ghost predicate AllSucceed(entries: seq<Entry>, limits: ZipLimits)
    requires limits.Valid()
  {
    forall i :: 0 <= i < |entries| ==> ResultAt(entries, i, limits).1
  }

  /**
   * With every member in order, extraction succeeds exactly when what the members really hold fits the limits, each by
   * itself and all together; then it has written all of it.
   */
  lemma {:induction false} ExtractionSucceedsExactly(entries: seq<Entry>, limits: ZipLimits)
    requires limits.Valid() && forall i :: 0 <= i < |entries| ==> InOrder(entries[i])
    ensures AllSucceed(entries, limits) <==> ContentFits(entries, limits)
    ensures AllSucceed(entries, limits) ==> Written(entries, limits) == TotalContent(entries)
  {
    hide MemberResult, InOrder, Content;
    if entries != [] {
      var n := |entries| - 1;
      var init, last := entries[..n], entries[n];
      ExtractionSucceedsExactly(init, limits);
      MemberInOrder(last, Allowance(limits, Written(init, limits)));
      InitSucceeds(entries, limits);
    }
  }

  lemma InitSucceeds(entries: seq<Entry>, limits: ZipLimits)
    requires limits.Valid() && entries != []
    ensures AllSucceed(entries, limits) <==>
      AllSucceed(entries[..|entries| - 1], limits) && ResultAt(entries, |entries| - 1, limits).1
  {
    hide MemberResult, Written;
    var init := entries[..|entries| - 1];
    forall i | 0 <= i < |init| ensures ResultAt(init, i, limits) == ResultAt(entries, i, limits) {
      assert init[..i] == entries[..i];
    }
  }
}
