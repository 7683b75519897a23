/** Canonical strings and path values are the same thing: cleaning, printing and parsing agree. */
module Identity {
  import opened Text
  import opened Grammar

  ghost predicate Names(parts: seq<string>, windows: bool) {
    forall i :: 0 <= i < |parts| ==> Name(parts[i], windows)
  }

  /** Parts that become names once empty and dot parts are gone. */
  ghost predicate Clean(parts: seq<string>, windows: bool) {
    forall i :: 0 <= i < |parts| ==>
      '/' !in parts[i] && '\0' !in parts[i] && (windows ==> '\\' !in parts[i])
  }

  lemma {:induction false} ResolveYieldsNames(stack: seq<string>, parts: seq<string>, clamp: bool, windows: bool)
    requires Names(stack, windows) && Clean(parts, windows)
    ensures Resolve(stack, parts, clamp).Some? ==> Names(Resolve(stack, parts, clamp).value, windows)
    decreases |parts|
  {
    if parts == [] {
    } else if parts[0] == "" || parts[0] == "." {
      ResolveYieldsNames(stack, parts[1..], clamp, windows);
    } else if parts[0] == ".." {
      if |stack| > 0 {
        ResolveYieldsNames(stack[..|stack| - 1], parts[1..], clamp, windows);
      } else if clamp {
        ResolveYieldsNames(stack, parts[1..], clamp, windows);
      }
    } else {
      ResolveYieldsNames(stack + [parts[0]], parts[1..], clamp, windows);
    }
  }

  function Size(parts: seq<string>): nat {
    if parts == [] then 0 else |parts[0]| + 1 + Size(parts[1..])
  }

  lemma {:induction false} JoinSize(parts: seq<string>)
    requires parts != []
    ensures |Join(parts)| + 1 == Size(parts)
  {
    if |parts| > 1 {
      JoinSize(parts[1..]);
    }
  }

  lemma {:induction false} SizeOfAppend(a: seq<string>, b: seq<string>)
    ensures Size(a + b) == Size(a) + Size(b)
  {
    if a == [] {
      assert a + b == b;
    } else {
      assert (a + b)[1..] == a[1..] + b;
      SizeOfAppend(a[1..], b);
    }
  }

  lemma {:induction false} ResolveShrinks(stack: seq<string>, parts: seq<string>, clamp: bool)
    ensures Resolve(stack, parts, clamp).Some? ==>
      Size(Resolve(stack, parts, clamp).value) <= Size(stack) + Size(parts)
    decreases |parts|
  {
    if parts == [] {
    } else if parts[0] == "" || parts[0] == "." {
      ResolveShrinks(stack, parts[1..], clamp);
    } else if parts[0] == ".." {
      if |stack| > 0 {
        assert stack == stack[..|stack| - 1] + [stack[|stack| - 1]];
        SizeOfAppend(stack[..|stack| - 1], [stack[|stack| - 1]]);
        ResolveShrinks(stack[..|stack| - 1], parts[1..], clamp);
      } else if clamp {
        ResolveShrinks(stack, parts[1..], clamp);
      }
    } else {
      SizeOfAppend(stack, [parts[0]]);
      ResolveShrinks(stack + [parts[0]], parts[1..], clamp);
    }
  }

  lemma {:induction false} ResolveOfNames(stack: seq<string>, names: seq<string>, clamp: bool)
    requires forall i :: 0 <= i < |names| ==> names[i] != "" && !IsDots(names[i])
    ensures Resolve(stack, names, clamp) == Some(stack + names)
    decreases |names|
  {
    if names == [] {
      assert stack + names == stack;
    } else {
      ResolveOfNames(stack + [names[0]], names[1..], clamp);
      assert stack + [names[0]] + names[1..] == stack + names;
    }
  }

  /** The parts of a text inherit its freedom from NUL and backslash. */
  lemma PartsAreClean(text: string, windows: bool)
    requires '\0' !in text && (windows ==> '\\' !in text)
    ensures Clean(Split(text), windows)
  {
    SplitIsSlashFree(text);
    CharInSplit(text, '\0');
    CharInSplit(text, '\\');
  }

  lemma RestIsClean(value: string)
    requires SplitRoot(value).Ok? && '\0' !in value
    ensures Clean(Split(SplitRoot(value).value.1), RootOf(value).Windows())
  {
    SplitRootShape(value);
    PartsAreClean(SplitRoot(value).value.1, RootOf(value).Windows());
  }

  /** A nonempty list of names joins to a text that starts with the first name, not with a slash or a dot part. */
  lemma NamesJoin(names: seq<string>, windows: bool)
    requires Names(names, windows) && names != []
    ensures Join(names) != "" && Join(names)[0] == names[0][0] && Join(names)[0] != '/'
    ensures Split(Join(names)) == names
    ensures '\0' !in Join(names) && (windows ==> '\\' !in Join(names))
    ensures !("./" <= Join(names)) && Join(names) != "."
  {
    SplitOfJoin(names);
    JoinNonEmpty(names);
    CharInJoin(names, '\0');
    CharInJoin(names, '\\');
  }

  lemma ReassembleIsPrint(root: Root, names: seq<string>)
    requires root.Valid() && Names(names, root.Windows())
    ensures Reassemble(root.Prefix(), names) == Path(root, names).Print()
  {
    hide Root.Prefix, Split, Join, Root.Valid, Name;
    PrefixFacts(root);
    JoinOfNothing();
    if names != [] {
      NamesJoin(names, root.Windows());
    }
  }

  lemma LowerPrefix(root: Root)
    requires root.Valid()
    ensures LowercaseDrive(root.Prefix()) == root.Lower().Prefix()
    ensures root.Lower().Valid() && root.Lower().Lower() == root.Lower()
  {
    hide LowercaseDrive;
    match root
    case Drive(d) =>
      LowerDriveText(d, "", "");
      assert root.Prefix() == [d] + ":/" + "" + "" && root.Lower().Prefix() == [ToLower(d)] + ":/" + "" + "";
    case ExtendedDrive(d) =>
      LowerExtendedDriveText(d, "", "");
      assert root.Prefix() == "//?/" + [d] + ":/" + "" + "";
      assert root.Lower().Prefix() == "//?/" + [ToLower(d)] + ":/" + "" + "";
    case ExtendedUnc(s, h) => ExtendedUncIsNoDrive(s, h);
    case Unc(s, h) => UncIsNoDrive(s, h);
    case _ => NoRootIsNoDrive();
  }

  lemma NoRootIsNoDrive()
    ensures LowercaseDrive("") == "" && LowercaseDrive("/") == "/"
  {
  }

  lemma UncIsNoDrive(server: string, share: string)
    requires Unc(server, share).Valid()
    ensures LowercaseDrive(Unc(server, share).Prefix()) == Unc(server, share).Prefix()
  {
    var prefix := Unc(server, share).Prefix();
    assert prefix == "//" + (server + "/" + share);
    assert prefix[0] == '/' && prefix[2] == server[0] && prefix[3] == if |server| == 1 then '/' else server[1];
  }

  lemma ExtendedUncIsNoDrive(server: string, share: string)
    ensures LowercaseDrive(ExtendedUnc(server, share).Prefix()) == ExtendedUnc(server, share).Prefix()
  {
    var prefix := ExtendedUnc(server, share).Prefix();
    assert prefix == "//?/UNC/" + (server + "/" + share);
    assert prefix[0] == '/' && prefix[5] == 'N' && prefix[4..][1] == prefix[5];
    assert !HasDriveRoot(prefix) && !HasDriveRoot(prefix[4..]);
  }

  lemma LowerLength(root: Root)
    ensures |root.Lower().Prefix()| == |root.Prefix()|
    ensures root.Lower().Prefix() == root.Prefix() <==> root.Lower() == root
  {
    match root
    case Drive(d) =>
      assert root.Prefix()[0] == d && root.Lower().Prefix()[0] == ToLower(d);
    case ExtendedDrive(d) =>
      assert root.Prefix()[4] == d && root.Lower().Prefix()[4] == ToLower(d);
    case _ =>
  }

  /** Cleaning a text prints the path it denotes, and fails exactly when it denotes none. */
  lemma CleanedPrintsDenoted(value: string)
    ensures Denote(value).Ok? ==>
      Denote(value).value.Normal() && Cleaned(value) == Ok(Denote(value).value.Print())
    ensures Denote(value).Err? ==> Cleaned(value) == Err(Denote(value).code)
  {
    if value != "" && '\0' !in value && SplitRoot(value).Ok? {
      var root, rest := RootOf(value), SplitRoot(value).value.1;
      SplitRootShape(value);
      RootIsValid(value);
      RestIsClean(value);
      ResolveYieldsNames([], Split(rest), !root.Relative?, root.Windows());
      LowerPrefix(root);
      var names := Resolve([], Split(rest), !root.Relative?);
      if names.Some? {
        ReassembleIsPrint(root.Lower(), names.value);
      }
    }
  }

  lemma PrintSplits(p: Path)
    requires p.Valid()
    ensures SplitRoot(p.Print()).Ok? && RootOf(p.Print()) == p.root
    ensures p.Print() != ""
    ensures !p.root.Relative? ==> SplitRoot(p.Print()).value == (p.root.Prefix(), Join(p.names))
    ensures p.root.Relative? ==> SplitRoot(p.Print()).value == ("", p.Print())
  {
    if p.names != [] {
      NamesJoin(p.names, p.root.Windows());
    }
    if p.root.Relative? {
      assert p.Print() != "" && p.Print()[0] != '/';
    } else {
      hide Root.Prefix, SplitRootPrefix, RootOf;
      PrefixFacts(p.root);
      RootReadsBack(p.root, p.Separator(), Join(p.names));
    }
  }

  lemma PrintHasNoNul(p: Path)
    requires p.Valid()
    ensures '\0' !in p.Print()
  {
    CharInJoin(p.names, '\0');
  }

  /** The raw parts of a printed path are its names, after the marker's dot or around nothing. */
  lemma PrintedParts(p: Path, clamp: bool)
    requires p.Valid()
    ensures Resolve([], Split(Join(p.names)), clamp) == Some(p.names)
    ensures p.root.Relative? ==> Resolve([], Split(p.Print()), clamp) == Some(p.names)
  {
    hide Split, Join, Resolve, Path.Print;
    var text := Join(p.names);
    if p.names == [] {
      JoinOfNothing();
      SplitOfPlain("");
      SplitOfPlain(".");
      DotsResolveAway([], clamp);
    } else {
      NamesJoin(p.names, p.root.Windows());
      ResolveOfNames([], p.names, clamp);
      assert [] + p.names == p.names;
      assert "./" + text == "." + "/" + text;
      SplitAfterSlash(".", text);
      DotsResolveAway(p.names, clamp);
    }
    if p.root.Relative? {
      RelativePrint(p);
    }
  }

  lemma RelativePrint(p: Path)
    requires p.root.Relative?
    ensures p.names == [] ==> p.Print() == "."
    ensures p.names != [] ==> p.Print() == Join(p.names) || p.Print() == "./" + Join(p.names)
  {
    hide Join;
  }

  /** A leading dot or empty part changes nothing. */
  lemma DotsResolveAway(parts: seq<string>, clamp: bool)
    ensures Resolve([], ["."] + parts, clamp) == Resolve([], parts, clamp)
    ensures Resolve([], [""], clamp) == Resolve([], ["."], clamp) == Some([])
  {
    assert (["."] + parts)[1..] == parts;
  }

  /** Printing and then reading a path gives the path back, with its drive letter in lower case. */
  lemma DenotedOfPrint(p: Path)
    requires p.Valid()
    ensures Denote(p.Print()) == Ok(p.Lower())
  {
    hide Root.Prefix, SplitRoot, RootOf, Path.Print, Split, Resolve;
    PrintSplits(p);
    PrintHasNoNul(p);
    PrintedParts(p, !p.root.Relative?);
  }

  lemma CleanedOfPrint(p: Path)
    requires p.Valid()
    ensures Cleaned(p.Print()) == Ok(p.Lower().Print())
  {
    DenotedOfPrint(p);
    CleanedPrintsDenoted(p.Print());
  }

  lemma LowercaseDriveOfPrint(p: Path)
    requires p.Valid()
    ensures LowercaseDrive(p.Print()) == p.Lower().Print()
  {
    hide LowercaseDrive, Join;
    match p.root
    case Drive(d) => LowerDriveText(d, p.Separator(), Join(p.names));
    case ExtendedDrive(d) => LowerExtendedDriveText(d, p.Separator(), Join(p.names));
    case _ => NoDriveInPrint(p);
  }

  lemma LowerDriveText(d: char, separator: string, text: string)
    requires IsLetter(d)
    ensures LowercaseDrive([d] + ":/" + separator + text) == [ToLower(d)] + ":/" + separator + text
  {
    var rest := ":/" + separator + text;
    assert [d] + ":/" + separator + text == [d] + rest && [ToLower(d)] + ":/" + separator + text == [ToLower(d)] + rest;
    assert rest[0] == ':' && rest[1] == '/' && ([d] + rest)[1..] == rest;
  }

  lemma LowerExtendedDriveText(d: char, separator: string, text: string)
    requires IsLetter(d)
    ensures LowercaseDrive("//?/" + [d] + ":/" + separator + text) == "//?/" + [ToLower(d)] + ":/" + separator + text
  {
    var rest := ":/" + separator + text;
    var inner := [d] + rest;
    var value := "//?/" + inner;
    assert "//?/" + [d] + ":/" + separator + text == value;
    assert "//?/" + [ToLower(d)] + ":/" + separator + text == "//?/" + [ToLower(d)] + rest;
    assert value[0] == '/' && value[..4] == "//?/" && value[4..] == inner && value[4] == d && value[5..] == rest;
    assert rest[0] == ':' && rest[1] == '/';
  }

  lemma NoDriveInPrint(p: Path)
    requires p.Valid() && !p.root.Drive? && !p.root.ExtendedDrive?
    ensures LowercaseDrive(p.Print()) == p.Print()
  {
    PrintSplits(p);
  }

  /** Strict parsing of a printed path returns its two parts unchanged, drive letter included. */
  lemma ParsedOfPrint(p: Path)
    requires p.Valid()
    ensures ParseCleanCanonical(p.Print()) == Ok((p.root.Prefix(), Join(p.names)))
  {
    CleanedOfPrint(p);
    LowercaseDriveOfPrint(p);
    PrintSplits(p);
    if p.names != [] {
      NamesJoin(p.names, p.root.Windows());
    }
  }

  /** The path a strictly parsed text prints. */
  function PathOf(value: string): Path
    requires Denote(value).Ok?
  {
    Path(RootOf(value), Denote(value).value.names)
  }

  lemma PathOfIsValid(value: string)
    requires Denote(value).Ok?
    ensures PathOf(value).Valid() && PathOf(value).Lower() == Denote(value).value
  {
    CleanedPrintsDenoted(value);
    RootIsValid(value);
  }

  /** Strict parsing accepts nothing but printed paths. */
  lemma ParsedIsPrinted(value: string)
    requires ParseCleanCanonical(value).Ok?
    ensures Denote(value).Ok? && PathOf(value).Valid() && PathOf(value).Print() == value
  {
    CleanedPrintsDenoted(value);
    PathOfIsValid(value);
    var p := PathOf(value);
    LowercaseDriveOfPrint(p);
    PrintSplits(p);
    SameUpToDrive(value, p.Print());
  }

  /** A text is its lower-case-drive form with the letter of its own root. */
  lemma SameUpToDrive(a: string, b: string)
    requires SplitRoot(a).Ok? && SplitRoot(b).Ok? && RootOf(a) == RootOf(b)
    requires LowercaseDrive(a) == LowercaseDrive(b)
    ensures a == b
  {
    match RootOf(a)
    case Drive(d) =>
      var low := LowercaseDrive(a);
      assert a == [d] + low[1..] && b == [d] + low[1..];
    case ExtendedDrive(d) =>
      var low := LowercaseDrive(a);
      assert a == low[..4] + [d] + low[5..];
      assert b == low[..4] + [d] + low[5..];
    case _ =>
  }

  // ----- Main results -----

  lemma CleaningIsIdempotent(value: string)
    requires Cleaned(value).Ok?
    ensures Cleaned(Cleaned(value).value) == Cleaned(value)
  {
    CleanedPrintsDenoted(value);
    CleanedOfPrint(Denote(value).value);
  }

  lemma PrintIsInjective(p: Path, q: Path)
    requires p.Valid() && q.Valid() && p.Print() == q.Print()
    ensures p == q
  {
    PrintSplits(p);
    PrintSplits(q);
    DenotedOfPrint(p);
    DenotedOfPrint(q);
  }

  /** A string is its own cleaned form exactly when it prints a normal path, and then only one. */
  lemma CanonicalIffPrinted(value: string)
    ensures Cleaned(value) == Ok(value) <==> exists p: Path :: p.Normal() && p.Print() == value
  {
    if Cleaned(value) == Ok(value) {
      CleanedPrintsDenoted(value);
      assert Denote(value).value.Normal();
    }
    if p: Path :| p.Normal() && p.Print() == value {
      CleanedOfPrint(p);
    }
  }

  /** Strict parsing accepts exactly the printed paths, whatever the case of the drive letter. */
  lemma StrictIffPrinted(value: string)
    ensures ParseCleanCanonical(value).Ok? <==> exists p: Path :: p.Valid() && p.Print() == value
  {
    if ParseCleanCanonical(value).Ok? {
      ParsedIsPrinted(value);
    }
    if p: Path :| p.Valid() && p.Print() == value {
      ParsedOfPrint(p);
    }
  }

  /** Two inputs get one identity exactly when their roots agree up to drive case and their components resolve alike. */
  lemma SameIdentity(a: string, b: string)
    requires Cleaned(a).Ok? && Cleaned(b).Ok?
    ensures Cleaned(a) == Cleaned(b) <==>
      && RootOf(a).Lower() == RootOf(b).Lower()
      && Resolve([], Split(SplitRoot(a).value.1), !RootOf(a).Relative?)
         == Resolve([], Split(SplitRoot(b).value.1), !RootOf(b).Relative?)
  {
    CleanedPrintsDenoted(a);
    CleanedPrintsDenoted(b);
    if Cleaned(a) == Cleaned(b) {
      PrintIsInjective(Denote(a).value, Denote(b).value);
    }
  }
}
