/** Canonical paths written for Windows are read back unchanged. */
module WindowsLaws {
  import opened Text
  import opened Grammar
  import opened Identity
  import opened Normalize
  import opened NormalizeLaws
  import opened HostLaws
  import opened RawStability

  lemma ReplaceRoundTrip(value: string)
    requires '\\' !in value
    ensures Replace(Replace(value, '/', '\\'), '\\', '/') == value
    ensures '/' !in Replace(value, '/', '\\')
  {
  }

  function UpperRoot(root: Root): Root {
    match root
    case Drive(d) => Drive(ToUpper(d))
    case ExtendedDrive(d) => ExtendedDrive(ToUpper(d))
    case _ => root
  }

  lemma UppercaseDriveOfPrint(p: Path)
    requires p.Valid()
    ensures UppercaseDrive(p.Print()) == Path(UpperRoot(p.root), p.names).Print()
  {
    hide UppercaseDrive, Join;
    match p.root
    case Drive(d) => UpperDriveText(d, p.Separator(), Join(p.names));
    case ExtendedDrive(d) => UpperExtendedDriveText(d, p.Separator(), Join(p.names));
    case _ => NoUpperDriveInPrint(p);
  }

  lemma NoUpperDriveInPrint(p: Path)
    requires p.Valid() && !p.root.Drive? && !p.root.ExtendedDrive?
    ensures UppercaseDrive(p.Print()) == p.Print()
  {
    PrintSplits(p);
  }

  lemma UpperDriveText(d: char, separator: string, text: string)
    requires IsLetter(d)
    ensures UppercaseDrive([d] + ":/" + separator + text) == [ToUpper(d)] + ":/" + separator + text
  {
    var rest := ":/" + separator + text;
    assert [d] + ":/" + separator + text == [d] + rest && [ToUpper(d)] + ":/" + separator + text == [ToUpper(d)] + rest;
    assert rest[0] == ':' && rest[1] == '/' && ([d] + rest)[1..] == rest;
  }

  lemma UpperExtendedDriveText(d: char, separator: string, text: string)
    requires IsLetter(d)
    ensures UppercaseDrive("//?/" + [d] + ":/" + separator + text) == "//?/" + [ToUpper(d)] + ":/" + separator + text
  {
    var rest := ":/" + separator + text;
    var inner := [d] + rest;
    var value := "//?/" + inner;
    assert "//?/" + [d] + ":/" + separator + text == value;
    assert "//?/" + [ToUpper(d)] + ":/" + separator + text == "//?/" + [ToUpper(d)] + rest;
    assert value[0] == '/' && value[..4] == "//?/" && value[4..] == inner && value[4] == d && value[5..] == rest;
    assert rest[0] == ':' && rest[1] == '/';
  }

  lemma NoSchemeWithoutSlash(value: string)
    requires '/' !in value
    ensures SchemeEnd(value) < 0
  {
    if |value| >= 3 {
      assert value[1] in value && value[..3][1] == value[1];
      NoSchemeWithoutSlash(value[1..]);
    }
  }

  /**
   * A canonical path that was written for Windows is read back exactly when the options' mount, policies and target
   * profile take it and, if it is extended, its prefix is preserved.
   */
  lemma NormalizeUndoesToWin32(value: string, opts: Options, decodeUri: string -> Result<string>)
    requires Cleaned(value) == Ok(value) && ToWin32(value).Ok? && IsRawHost(opts.host)
    ensures Normalized(ToWin32(value).value, opts, decodeUri) == Ok(value) <==>
      && NormalizeMountRoot(opts.mountRoot).Ok?
      && ValidateWindowsComponents(value, opts).Ok? && ValidateTargetProfile(value, opts.profile).Ok?
      && (opts.preserveExtendedLength || !("//?/" <= value))
  {
    hide Denote, Cleaned, Path.Print, ParseCleanCanonical, UppercaseDrive, Replace, SplitRoot, NormalizeMountRoot, Finish,
      HasURIScheme, ValidateWindowsComponents, ValidateTargetProfile, CrossHostInput, IsURIWindowsDrivePath;
    CleanedPrintsDenoted(value);
    var p := Denote(value).value;
    var upper := Path(UpperRoot(p.root), p.names);
    NotPosixRoot(p);
    UppercaseDriveOfPrint(p);
    UpperIsValid(p);
    NoBackslashUpper(p);
    ReplaceRoundTrip(upper.Print());
    var written := Replace(upper.Print(), '/', '\\');
    NoSchemeWithoutSlash(written);
    NoScheme(written);
    WrittenText(upper);
    NoSlashNoCandidate(written);
    CrossHostOfUpper(p, upper, written, opts);
  }

  lemma UpperIsValid(p: Path)
    requires p.Normal()
    ensures var upper := Path(UpperRoot(p.root), p.names); upper.Valid() && upper.Lower() == p
  {
  }

  lemma NoScheme(value: string)
    requires SchemeEnd(value) < 0
    ensures !HasURIScheme(value)
  {
  }

  lemma NoSlashNoCandidate(value: string)
    requires '/' !in value
    ensures !IsWSLCandidate(value)
  {
    assert value != "" ==> value[0] in value;
  }

  lemma CrossHostOfUpper(p: Path, upper: Path, written: string, opts: Options)
    requires p.Normal() && !p.root.Posix? && upper == Path(UpperRoot(p.root), p.names) && upper.Valid() && upper.Lower() == p
    requires Replace(written, '\\', '/') == upper.Print()
    ensures CrossHostInput(written, opts).Ok?
    ensures Finish(CrossHostInput(written, opts).value, opts) == Ok(p.Print()) <==>
      && ValidateWindowsComponents(p.Print(), opts).Ok? && ValidateTargetProfile(p.Print(), opts.profile).Ok?
      && (opts.preserveExtendedLength || !("//?/" <= p.Print()))
  {
    hide Replace, SplitRoot, Path.Print, Finish, UnwrapWindowsExtendedPrefix, ValidateWindowsComponents,
      ValidateTargetProfile, IsURIWindowsDrivePath;
    PrintSplits(upper);
    NotURIDrive(upper);
    SamePrefixOfPrint(p, upper);
    if opts.preserveExtendedLength || !("//?/" <= upper.Print()) {
      NothingToUnwrap(upper.Print());
      FinishOfUpper(p, upper, opts);
    } else {
      UnwrappedIsLost(p, upper, opts);
    }
  }

  lemma NothingToUnwrap(value: string)
    ensures !("//?/" <= value) ==> UnwrapWindowsExtendedPrefix(value) == value
  {
  }

  lemma SamePrefixOfPrint(p: Path, upper: Path)
    requires upper == Path(UpperRoot(p.root), p.names) && p.Valid() && upper.Valid()
    ensures "//?/" <= p.Print() <==> "//?/" <= upper.Print()
  {
    hide Path.Print;
    IsExtendedPrint(p);
    IsExtendedPrint(upper);
  }

  lemma IsExtendedPrint(p: Path)
    requires p.Valid()
    ensures "//?/" <= p.Print() <==> p.root.ExtendedDrive? || p.root.ExtendedUnc?
  {
    hide Path.Print;
    PrintSplits(p);
  }

  lemma FinishOfUpper(p: Path, upper: Path, opts: Options)
    requires p.Normal() && upper == Path(UpperRoot(p.root), p.names) && upper.Valid() && upper.Lower() == p
    ensures Finish(upper.Print(), opts) == Ok(p.Print()) <==>
      ValidateWindowsComponents(p.Print(), opts).Ok? && ValidateTargetProfile(p.Print(), opts.profile).Ok?
  {
    hide Cleaned, SplitRoot, Path.Print, ValidateTargetProfile, ValidateWindowsComponents;
    CleanedOfPrint(upper);
    PrintSplits(upper);
    PoliciesIgnoreDrive(p, upper, opts);
  }

  lemma PoliciesIgnoreDrive(p: Path, upper: Path, opts: Options)
    requires p.Valid() && upper.Valid() && upper == Path(UpperRoot(p.root), p.names)
    ensures ValidateWindowsComponents(upper.Print(), opts) == ValidateWindowsComponents(p.Print(), opts)
  {
    hide SplitRoot, Path.Print, Split, IsReservedPart;
    PrintSplits(p);
    PrintSplits(upper);
  }

  /** Once unwrapped, an extended path does not come back. */
  lemma UnwrappedIsLost(p: Path, upper: Path, opts: Options)
    requires p.Normal() && upper == Path(UpperRoot(p.root), p.names) && upper.Valid() && upper.Lower() == p
    requires "//?/" <= upper.Print()
    ensures var value := UnwrapWindowsExtendedPrefix(upper.Print());
      !IsURIWindowsDrivePath(value) && Finish(value, opts) != Ok(p.Print())
  {
    hide Path.Print, Cleaned, Finish;
    CleanedOfPrint(upper);
    CleanedOfPrint(p);
    UnwrappedIsNotURIDrive(upper.Print());
    IsExtendedPrint(upper);
    var value := UnwrapWindowsExtendedPrefix(upper.Print());
    FinishIsCleaned(value, opts);
    if p.root.ExtendedUnc? {
      UnwrappingChanges(p.Print());
    } else {
      SamePrefixOfPrint(p, upper);
      DriveOnceUnwrapped(upper);
      if Cleaned(value).Ok? {
        CleanedDriveText(value);
      }
    }
  }

  lemma DriveOnceUnwrapped(p: Path)
    requires p.Valid() && p.root.ExtendedDrive?
    ensures HasDriveRoot(UnwrapWindowsExtendedPrefix(p.Print()))
  {
    var value := p.Print();
    assert value == "//?/" + [p.root.letter] + ":/" + Join(p.names);
    assert value[4] == p.root.letter && value[5] == ':' && value[6] == '/';
  }

  lemma NotPosixRoot(p: Path)
    requires p.Valid() && ToWin32(p.Print()).Ok?
    ensures !p.root.Posix? && '\\' !in p.Print()
  {
    hide Path.Print, ParseCleanCanonical, Replace, UppercaseDrive;
    ParsedOfPrint(p);
  }

  lemma NoBackslashUpper(p: Path)
    requires p.Valid() && '\\' !in p.Print()
    ensures '\\' !in Path(UpperRoot(p.root), p.names).Print()
  {
    var upper := Path(UpperRoot(p.root), p.names);
    if p.root.Windows() {
      hide Path.Print, Root.Prefix, SplitRootPrefix, RootOf;
      PrintSplits(upper);
      PrefixFacts(upper.root);
    }
  }

  lemma WrittenText(p: Path)
    requires p.Valid()
    ensures Replace(p.Print(), '/', '\\') != "" && '\0' !in Replace(p.Print(), '/', '\\')
  {
    PrintHasNoNul(p);
    PrintSplits(p);
  }

  lemma NotURIDrive(p: Path)
    requires p.Valid() && !p.root.Posix?
    ensures !IsURIWindowsDrivePath(p.Print())
  {
    if p.names != [] {
      NamesJoin(p.names, p.root.Windows());
    }
  }

  lemma ToWin32IsInjective(a: string, b: string)
    requires Cleaned(a) == Ok(a) && Cleaned(b) == Ok(b)
    requires ToWin32(a).Ok? && ToWin32(a) == ToWin32(b)
    ensures a == b
  {
    var opts := Options(Win32, AnyProfile, false, "/", true, false, false);
    var decodeUri := (uri: string) => Err(InvalidPath);
    hide Cleaned, ToWin32, NormalizeMountRoot, Normalized;
    RootMount();
    TakesAll(a, opts);
    TakesAll(b, opts);
    NormalizeUndoesToWin32(a, opts, decodeUri);
    NormalizeUndoesToWin32(b, opts, decodeUri);
  }

  lemma TakesAll(value: string, opts: Options)
    requires Cleaned(value).Ok? && !opts.rejectADS && !opts.rejectDeviceNames && opts.profile.AnyProfile?
    ensures ValidateWindowsComponents(value, opts).Ok? && ValidateTargetProfile(value, opts.profile).Ok?
  {
    CleanedSplits(value);
  }

  lemma RootMount()
    ensures NormalizeMountRoot("/") == Ok("/")
  {
    var root := Path(Posix, []);
    assert root.Print() == "/";
    PrintIsPrepared(root);
    CleanedOfPrint(root);
  }
}
