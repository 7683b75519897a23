/** Joining under a root and expressing a target relative to it. */
module RelativePaths {
  import opened Text
  import opened Grammar
  import opened Identity

  /** The names a canonical relative argument resolves to. */
  function RelativeNames(raw: string): Result<seq<string>> {
    if raw == "" then Err(EmptyPath)
    else if '\0' in raw then Err(NulByte)
    else if "/" <= raw || HasDriveRoot(raw) then Err(AbsolutePath)
    else if IsDriveRelative(raw) then Err(DriveRelativePath)
    else
      match Resolve([], Split(raw), false)
      case None => Err(OutsideRoot)
      case Some(names) => Ok(names)
  }

  /** What cleaning a canonical relative argument returns. */
  function CleanedRelative(raw: string): Result<string> {
    var names :- RelativeNames(raw);
    Ok(if names == [] then "." else MarkRelative(Join(names)))
  }

  method NormalizeCanonicalRelative(raw: string) returns (r: Result<string>)
    ensures r == CleanedRelative(raw)
  {
    if raw == "" {
      return Err(EmptyPath);
    }
    if '\0' in raw {
      return Err(NulByte);
    }
    if "/" <= raw || HasDriveRoot(raw) {
      return Err(AbsolutePath);
    }
    if IsDriveRelative(raw) {
      return Err(DriveRelativePath);
    }
    if raw == "." {
      SplitOfPlain(raw);
      return Ok(".");
    }
    var rest := Split(raw);
    var parts: seq<string> := [];
    for i := 0 to |rest|
      invariant Resolve([], rest, false) == Resolve(parts, rest[i..], false)
    {
      var part := rest[i];
      if part == "" || part == "." {
      } else if part == ".." {
        if |parts| == 0 {
          return Err(OutsideRoot);
        }
        parts := parts[..|parts| - 1];
      } else {
        parts := parts + [part];
      }
    }
    return Ok(if |parts| == 0 then "." else MarkRelative(Join(parts)));
  }

  /** The root prefix and the components of a strictly parsed absolute path. */
  function CanonicalParts(value: string): Result<(string, seq<string>)> {
    var (prefix, rest) :- ParseCleanCanonical(value);
    if prefix == "" then Err(InvalidPath)
    else Ok((prefix, if rest == "" then [] else Split(rest)))
  }

  /** `target` seen from `root`. */
  function RelativeOf(root: string, target: string): Result<string> {
    var (rootPrefix, rootParts) :- CanonicalParts(root);
    var (targetPrefix, targetParts) :- CanonicalParts(target);
    if rootPrefix != targetPrefix || !(rootParts <= targetParts) then Err(OutsideRoot)
    else if |targetParts| == |rootParts| then Ok(".")
    else Ok(MarkRelative(Join(targetParts[|rootParts|..])))
  }

  method Relative(root: string, target: string) returns (r: Result<string>)
    ensures r == RelativeOf(root, target)
  {
    hide ParseCleanCanonical, Split;
    var rootPath :- CanonicalParts(root);
    var targetPath :- CanonicalParts(target);
    var (rootPrefix, rootParts) := rootPath;
    var (targetPrefix, targetParts) := targetPath;
    if rootPrefix != targetPrefix || |targetParts| < |rootParts| {
      return Err(OutsideRoot);
    }
    for i := 0 to |rootParts|
      invariant rootParts[..i] == targetParts[..i]
    {
      if targetParts[i] != rootParts[i] {
        assert !(rootParts <= targetParts);
        return Err(OutsideRoot);
      }
    }
    if |targetParts| == |rootParts| {
      return Ok(".");
    }
    return Ok(MarkRelative(Join(targetParts[|rootParts|..])));
  }

  /** `relative` put under the canonical path `root`. */
  function JoinUnder(root: string, relative: string): Result<string> {
    var (prefix, rootRest) :- ParseCleanCanonical(root);
    if IsWindowsRoot(prefix) && '\\' in relative then Err(InvalidPath)
    else
      var cleaned :- CleanedRelative(relative);
      if cleaned == "." then Ok(root)
      else
        Ok(Extend(root, prefix, rootRest, WithoutRelativeMarker(cleaned)))
  }

  function Extend(root: string, prefix: string, rootRest: string, text: string): string {
    if prefix == "" then MarkRelative(if rootRest == "" then text else rootRest + "/" + text)
    else if root != "" && root[|root| - 1] == '/' then root + text
    else root + "/" + text
  }

  // ----- The operations on path values -----

  lemma RelativeNamesAreNames(raw: string, windows: bool)
    requires RelativeNames(raw).Ok? && (windows ==> '\\' !in raw)
    ensures Names(RelativeNames(raw).value, windows)
  {
    PartsAreClean(raw, windows);
    ResolveYieldsNames([], Split(raw), false, windows);
  }

  /** A printed relative path resolves to its own names. */
  lemma RelativeNamesOfPrint(names: seq<string>)
    requires Names(names, false)
    ensures RelativeNames(Path(Root.Relative, names).Print()) == Ok(names)
  {
    var p := Path(Root.Relative, names);
    PrintSplits(p);
    DenotedOfPrint(p);
    SplitRootShape(p.Print());
    if names != [] {
      NamesJoin(names, false);
    }
  }

  lemma CleanedRelativeText(names: seq<string>)
    requires Names(names, false) && names != []
    ensures WithoutRelativeMarker(MarkRelative(Join(names))) == Join(names)
    ensures MarkRelative(Join(names)) != "."
  {
    NamesJoin(names, false);
  }

  lemma NamesWeaken(names: seq<string>, windows: bool)
    requires Names(names, windows)
    ensures Names(names, false)
  {
  }

  /** A join appends the resolved names to the root's names and changes nothing else. */
  lemma JoinAppendsNames(p: Path, relative: string)
    requires p.Valid()
    ensures JoinUnder(p.Print(), relative) ==
      if p.root.Windows() && '\\' in relative then Err(InvalidPath)
      else if RelativeNames(relative).Err? then Err(RelativeNames(relative).code)
      else Ok(Path(p.root, p.names + RelativeNames(relative).value).Print())
  {
    hide ParseCleanCanonical, RelativeNames, Root.Prefix, Root.Valid, Path.Print, IsWindowsRoot;
    ParsedOfPrint(p);
    PrefixFacts(p.root);
    if !(p.root.Windows() && '\\' in relative) && RelativeNames(relative).Ok? {
      var names := RelativeNames(relative).value;
      RelativeNamesAreNames(relative, p.root.Windows());
      if names == [] {
        assert p.names + names == p.names;
      } else {
        NamesWeaken(names, p.root.Windows());
        CleanedRelativeText(names);
        ExtendedPrint(p, names);
      }
    }
  }

  lemma ExtendedPrint(p: Path, names: seq<string>)
    requires p.Valid() && Names(names, p.root.Windows()) && names != []
    ensures Extend(p.Print(), p.root.Prefix(), Join(p.names), Join(names)) == Path(p.root, p.names + names).Print()
  {
    hide Root.Prefix, Split, Join, Path.Print, Extend;
    if p.names == [] {
      JoinOfNothing();
      assert p.names + names == names;
      ExtendedRoot(p.root, names);
    } else {
      JoinAppend(p.names, names);
      NamesJoin(p.names, p.root.Windows());
      if p.root.Relative? {
        ExtendedRelative(p.names, names);
      } else {
        ExtendedRooted(p, names);
      }
    }
  }

  lemma ExtendedRoot(root: Root, names: seq<string>)
    requires root.Valid() && names != []
    ensures Extend(Path(root, []).Print(), root.Prefix(), "", Join(names)) == Path(root, names).Print()
  {
    hide Root.Prefix, Join;
    PrefixFacts(root);
    JoinOfNothing();
    assert !root.Relative? ==> Path(root, []).Print() == root.Prefix();
  }

  lemma ExtendedRelative(a: seq<string>, b: seq<string>)
    requires a != [] && Join(a) != "" && Join(a + b) == Join(a) + "/" + Join(b)
    ensures Extend(Path(Root.Relative, a).Print(), Root.Relative.Prefix(), Join(a), Join(b))
      == Path(Root.Relative, a + b).Print()
  {
    hide Join;
  }

  lemma ExtendedRooted(p: Path, names: seq<string>)
    requires p.Valid() && !p.root.Relative? && p.names != []
    requires Join(p.names + names) == Join(p.names) + "/" + Join(names)
    ensures Extend(p.Print(), p.root.Prefix(), Join(p.names), Join(names)) == Path(p.root, p.names + names).Print()
  {
    hide Root.Prefix, Join, Path.Print;
    PrefixFacts(p.root);
    ExtendedText(p, names);
  }

  lemma ExtendedText(p: Path, names: seq<string>)
    requires p.Valid() && !p.root.Relative? && p.names != []
    requires Join(p.names + names) == Join(p.names) + "/" + Join(names)
    ensures p.Print()[|p.Print()| - 1] != '/'
    ensures p.Print() + "/" + Join(names) == Path(p.root, p.names + names).Print()
  {
    hide Root.Prefix, Split, Join;
    LastOfJoin(p.names);
    var head, joined, more := p.root.Prefix() + p.Separator(), Join(p.names), Join(names);
    assert head + joined + "/" + more == head + (joined + "/" + more);
  }

  lemma {:induction false} LastOfJoin(names: seq<string>)
    requires |names| >= 1 && SlashFree(names) && forall i :: 0 <= i < |names| ==> names[i] != ""
    ensures Join(names) != "" && Join(names)[|Join(names)| - 1] != '/'
  {
    if |names| > 1 {
      LastOfJoin(names[1..]);
    }
  }

  lemma CanonicalPartsOfPrint(p: Path)
    requires p.Valid() && !p.root.Relative?
    ensures CanonicalParts(p.Print()) == Ok((p.root.Prefix(), p.names))
  {
    ParsedOfPrint(p);
    PrefixFacts(p.root);
    if p.names != [] {
      NamesJoin(p.names, p.root.Windows());
    }
  }

  lemma SamePrefix(a: Root, b: Root)
    requires a.Valid() && b.Valid() && !a.Relative? && !b.Relative?
    ensures a.Prefix() == b.Prefix() <==> a == b
  {
    if a.Prefix() == b.Prefix() {
      assert Path(a, []).Print() == a.Prefix() + "" + "" == Path(b, []).Print();
      PrintIsInjective(Path(a, []), Path(b, []));
    }
  }

  /** A relative result drops the root's names; it exists exactly for equal roots and a prefix of names. */
  lemma RelativeDropsNames(p: Path, q: Path)
    requires p.Valid() && q.Valid() && !p.root.Relative? && !q.root.Relative?
    ensures RelativeOf(p.Print(), q.Print()) ==
      if p.root == q.root && p.names <= q.names then
        Ok(Path(Root.Relative, q.names[|p.names|..]).Print())
      else Err(OutsideRoot)
  {
    CanonicalPartsOfPrint(p);
    CanonicalPartsOfPrint(q);
    SamePrefix(p.root, q.root);
  }

  /** The path values behind an accepted absolute operand. */
  lemma CanonicalPartsArePrinted(value: string)
    requires CanonicalParts(value).Ok?
    ensures Denote(value).Ok? && PathOf(value).Valid() && PathOf(value).Print() == value
    ensures !PathOf(value).root.Relative?
  {
    ParsedIsPrinted(value);
    SplitRootShape(value);
  }

  // ----- Main results -----

  lemma JoinUndoesRelative(root: string, target: string)
    requires RelativeOf(root, target).Ok?
    ensures JoinUnder(root, RelativeOf(root, target).value) == Ok(target)
  {
    CanonicalPartsArePrinted(root);
    CanonicalPartsArePrinted(target);
    JoinUndoesDrop(PathOf(root), PathOf(target));
  }

  lemma JoinUndoesDrop(p: Path, q: Path)
    requires p.Valid() && q.Valid() && !p.root.Relative? && !q.root.Relative?
    requires RelativeOf(p.Print(), q.Print()).Ok?
    ensures JoinUnder(p.Print(), RelativeOf(p.Print(), q.Print()).value) == Ok(q.Print())
  {
    hide RelativeOf, JoinUnder, RelativeNames, Root.Prefix, Path.Print;
    RelativeDropsNames(p, q);
    var names := q.names[|p.names|..];
    var relative := Path(Root.Relative, names).Print();
    assert p.names + names == q.names;
    assert q == Path(p.root, p.names + names);
    LaterNames(q, |p.names|);
    RelativeNamesOfPrint(names);
    BackslashInPrint(names);
    JoinAppendsNames(p, relative);
  }

  lemma LaterNames(q: Path, k: nat)
    requires q.Valid() && k <= |q.names|
    ensures Names(q.names[k..], q.root.Windows()) && Names(q.names[k..], false)
    ensures q.root.Windows() ==> forall i :: 0 <= i < |q.names[k..]| ==> '\\' !in q.names[k..][i]
  {
  }

  lemma RelativeUndoesJoin(root: string, relative: string)
    requires CanonicalParts(root).Ok? && JoinUnder(root, relative).Ok?
    ensures RelativeOf(root, JoinUnder(root, relative).value) == CleanedRelative(relative)
  {
    CanonicalPartsArePrinted(root);
    var p := PathOf(root);
    JoinAppendsNames(p, relative);
    var names := RelativeNames(relative).value;
    RelativeNamesAreNames(relative, p.root.Windows());
    var q := Path(p.root, p.names + names);
    RelativeDropsNames(p, q);
    assert q.names[|p.names|..] == names;
  }

  /** A target has a relative form exactly when it is a component-wise descendant of the root. */
  lemma RelativeIffDescendant(root: string, target: string)
    ensures RelativeOf(root, target).Ok? <==>
      exists p: Path, q: Path :: Descends(p, q) && root == p.Print() && target == q.Print()
  {
    hide Path.Print, Path.Valid, Root.Prefix;
    if RelativeOf(root, target).Ok? {
      hide Denote;
      CanonicalPartsArePrinted(root);
      CanonicalPartsArePrinted(target);
      RelativeDropsNames(PathOf(root), PathOf(target));
      assert Descends(PathOf(root), PathOf(target));
    }
    if p: Path, q: Path :| Descends(p, q) && root == p.Print() && target == q.Print() {
      hide RelativeOf;
      RelativeDropsNames(p, q);
    }
  }

  /** `q` lies at or below the rooted path `p`, component by component. */
  ghost predicate Descends(p: Path, q: Path) {
    p.Valid() && q.Valid() && !p.root.Relative? && p.root == q.root && p.names <= q.names
  }

  /** Accepted by strict parsing, without a root. */
  predicate IsCleanRelative(value: string) {
    ParseCleanCanonical(value).Ok? && ParseCleanCanonical(value).value.0 == ""
  }

  lemma CleanRelativeIsPrinted(value: string)
    requires IsCleanRelative(value)
    ensures RelativeNames(value).Ok? && Names(RelativeNames(value).value, false)
    ensures value == Path(Root.Relative, RelativeNames(value).value).Print()
  {
    ParsedIsPrinted(value);
    SplitRootShape(value);
    RelativeNamesOfPrint(PathOf(value).names);
  }

  function Then(first: Result<string>, relative: string): Result<string> {
    var root :- first;
    JoinUnder(root, relative)
  }

  /** Joining step by step and joining at once give the same result, errors included. */
  lemma JoinAssociates(root: string, a: string, b: string)
    requires IsCleanRelative(a) && IsCleanRelative(b)
    ensures JoinUnder(a, b).Ok?
    ensures Then(JoinUnder(root, a), b) == JoinUnder(root, JoinUnder(a, b).value)
  {
    CleanRelativeIsPrinted(a);
    CleanRelativeIsPrinted(b);
    var x, y := RelativeNames(a).value, RelativeNames(b).value;
    JoinAppendsNames(Path(Root.Relative, x), b);
    if ParseCleanCanonical(root).Ok? {
      ParsedIsPrinted(root);
      JoinAssociatesOnNames(PathOf(root), x, y);
    }
  }

  lemma JoinAssociatesOnNames(p: Path, x: seq<string>, y: seq<string>)
    requires p.Valid() && Names(x, false) && Names(y, false)
    ensures var a, b := Path(Root.Relative, x).Print(), Path(Root.Relative, y).Print();
      Then(JoinUnder(p.Print(), a), b) == JoinUnder(p.Print(), Path(Root.Relative, x + y).Print())
  {
    hide JoinUnder, RelativeNames, Root.Prefix, Path.Print;
    var a, b := Path(Root.Relative, x).Print(), Path(Root.Relative, y).Print();
    RelativeNamesOfPrint(x);
    RelativeNamesOfPrint(y);
    RelativeNamesOfPrint(x + y);
    JoinAppendsNames(p, a);
    JoinAppendsNames(p, Path(Root.Relative, x + y).Print());
    BackslashInAppend(x, y);
    if !(p.root.Windows() && '\\' in a) {
      RelativeNamesAreNames(a, p.root.Windows());
      JoinAppendsNames(Path(p.root, p.names + x), b);
      assert p.names + x + y == p.names + (x + y);
    }
  }

  lemma BackslashInAppend(x: seq<string>, y: seq<string>)
    requires Names(x, false) && Names(y, false)
    ensures '\\' in Path(Root.Relative, x + y).Print() <==>
      '\\' in Path(Root.Relative, x).Print() || '\\' in Path(Root.Relative, y).Print()
  {
    hide Path.Print;
    BackslashInPrint(x);
    BackslashInPrint(y);
    BackslashInPrint(x + y);
    if i :| 0 <= i < |x| && '\\' in x[i] { assert (x + y)[i] == x[i]; }
    if i :| 0 <= i < |y| && '\\' in y[i] { assert (x + y)[|x| + i] == y[i]; }
  }

  lemma BackslashInPrint(names: seq<string>)
    requires Names(names, false)
    ensures '\\' in Path(Root.Relative, names).Print() <==> exists i :: 0 <= i < |names| && '\\' in names[i]
  {
    CharInJoin(names, '\\');
  }
}
