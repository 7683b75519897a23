/** Raw cross-host normalization and the strict relative validator are not idempotent; this says exactly when they are. */
module RawStability {
  import opened Text
  import opened Grammar
  import opened Identity
  import opened Normalize
  import opened NormalizeLaws
  import opened HostLaws

  /** A caller's test on a canonical string: reading it as raw input changes nothing. */
  predicate RereadsUnchanged(t: string, opts: Options, mountRoot: string) {
    if opts.wslEnabled && IsWSLCandidate(t) then
      opts.profile.PosixOnly? || MapWSLDrive(t, mountRoot).None?
    else
      !IsURIWindowsDrivePath(t) && '\\' !in t && (opts.preserveExtendedLength || !("//?/" <= t))
  }

  // ----- What raw mode can return -----

  lemma ReplacedHasNone(value: string)
    ensures '\\' !in Replace(value, '\\', '/')
    ensures '\\' !in value ==> Replace(value, '\\', '/') == value
  {
  }

  lemma UnwrappedHasNone(value: string)
    requires '\\' !in value
    ensures '\\' !in UnwrapWindowsExtendedPrefix(value)
  {
  }

  /** Cross-host input has no backslash left. */
  lemma CrossHostHasNoBackslash(value: string, opts: Options)
    requires CrossHostInput(value, opts).Ok?
    ensures '\\' !in CrossHostInput(value, opts).value
  {
    hide Replace, UnwrapWindowsExtendedPrefix;
    ReplacedHasNone(value);
    UnwrappedHasNone(Replace(value, '\\', '/'));
  }

  lemma CleanedHasNoBackslash(value: string)
    requires '\\' !in value && Cleaned(value).Ok?
    ensures '\\' !in Cleaned(value).value
  {
    CleanedPrintsDenoted(value);
    var p := Denote(value).value;
    if p.root.Windows() {
      hide Path.Print, Root.Prefix, SplitRootPrefix, RootOf;
      PrintSplits(p);
      PrefixFacts(p.root);
    } else {
      RelativeOrPosixText(value);
    }
  }

  lemma RelativeOrPosixText(value: string)
    requires '\\' !in value && Denote(value).Ok? && !Denote(value).value.root.Windows()
    ensures '\\' !in Denote(value).value.Print()
  {
    hide Denote, Split, Join, SplitRootPrefix, Path.Print, Root.Prefix;
    DenotedRoot(value);
    SplitRootShape(value);
    DenotedNamesAreParts(value);
    var p := Denote(value).value;
    CharInJoin(p.names, '\\');
    CharInSplit(Rest(value), '\\');
    forall i | 0 <= i < |p.names|
      ensures '\\' !in p.names[i]
    {
      assert p.names[i] in Split(Rest(value));
      var j :| 0 <= j < |Split(Rest(value))| && Split(Rest(value))[j] == p.names[i];
    }
    PlainPrint(p);
  }

  lemma PlainPrint(p: Path)
    requires !p.root.Windows() && '\\' !in Join(p.names)
    ensures '\\' !in p.Print()
  {
    hide Join;
  }

  /** A raw-mode result that WSL mode would not read as POSIX has no backslash. */
  lemma RawResult(raw: string, opts: Options, decodeUri: string -> Result<string>)
    requires IsRawHost(opts.host) && Normalized(raw, opts, decodeUri).Ok?
    ensures var t := Normalized(raw, opts, decodeUri).value;
      && Cleaned(t) == Ok(t) && Finish(t, opts) == Ok(t) && t != "" && '\0' !in t
      && ((opts.wslEnabled && IsWSLCandidate(t)) || '\\' !in t)
  {
    hide NormalizeMountRoot, WSLInput, CrossHostInput, Cleaned, Finish, HasURIScheme, IsWSLCandidate, IsURIWindowsDrivePath,
      RawText;
    var mount := NormalizeMountRoot(opts.mountRoot).value;
    var value := RawInput(raw, opts, mount, decodeUri).value;
    FinishIsStable(value, opts);
    var t := Normalized(raw, opts, decodeUri).value;
    var text := RawText(raw, opts, decodeUri).value;
    if opts.wslEnabled && IsWSLCandidate(text) && !(HasURIScheme(raw) && IsURIWindowsDrivePath(text)) {
      WSLResult(text, opts, mount);
    } else {
      CrossHostHasNoBackslash(text, opts);
      CleanedHasNoBackslash(value);
    }
  }

  lemma WSLResult(text: string, opts: Options, mount: string)
    requires IsWSLCandidate(text) && WSLInput(text, opts, mount).Ok?
    requires Cleaned(WSLInput(text, opts, mount).value).Ok?
    ensures var t := Cleaned(WSLInput(text, opts, mount).value).value; IsWSLCandidate(t) || '\\' !in t
  {
    hide PrepareNativePOSIX, Path.Print, Cleaned, MapWSLDrive, ValidateWindowsComponents, IsWSLCandidate;
    var xs := CandidateComponents(text, opts);
    var c := Path(Posix, xs);
    CleanedOfPrint(c);
    PosixPrint(c);
    if !opts.profile.PosixOnly? && MapWSLDrive(c.Print(), mount).Some? {
      MappedHasNoBackslash(c.Print(), mount);
    }
  }

  lemma MappedHasNoBackslash(value: string, mount: string)
    requires MapWSLDrive(value, mount).Some? && Cleaned(MapWSLDrive(value, mount).value).Ok?
    ensures '\\' !in Cleaned(MapWSLDrive(value, mount).value).value
  {
    hide Cleaned, SplitRoot;
    var text := MapWSLDrive(value, mount).value;
    DriveHasNoBackslash(text);
    CleanedHasNoBackslash(text);
  }

  lemma DriveHasNoBackslash(text: string)
    requires HasDriveRoot(text) && Cleaned(text).Ok?
    ensures '\\' !in text
  {
    CleanedSplits(text);
  }

  /** Canonical text never looks like a URI. */
  lemma CanonicalHasNoScheme(t: string)
    requires Cleaned(t) == Ok(t)
    ensures !HasURIScheme(t)
  {
    hide HasURIScheme, Path.Print;
    CleanedPrintsDenoted(t);
    var p := Denote(t).value;
    if p.root.Drive? {
      DriveHasNoScheme(p);
    } else if p.root.Relative? {
      PrintedRelativeParts(p);
      SchemeNeedsEmptyPart(t);
    } else {
      RootedText(p);
      NoSchemeAfterSlash(t);
    }
  }

  lemma RootedText(p: Path)
    requires !p.root.Relative? && !p.root.Drive?
    ensures "/" <= p.Print()
  {
    var prefix := p.root.Prefix();
    assert "/" <= prefix;
    assert p.Print()[0] == prefix[0];
  }

  lemma DriveHasNoScheme(p: Path)
    requires p.Valid() && p.root.Drive?
    ensures !HasURIScheme(p.Print())
  {
    hide Path.Print;
    var t := p.Print();
    DrivePrint(p);
    assert SchemeEnd(t) > 1 ==> !IsSchemeChar(t[1]);
    if p.names != [] {
      NamesJoin(p.names, true);
    }
    if SchemeEnd(t) == 1 {
      SchemeText(t);
    }
  }

  lemma SchemeNeedsEmptyPart(t: string)
    ensures HasURIScheme(t) ==> "" in Split(t)
  {
    if HasURIScheme(t) {
      SchemeText(t);
      var end := SchemeEnd(t);
      assert t[end + 1] == t[end..end + 3][1] && t[end + 2] == t[end..end + 3][2];
      DoubleSlash(t, end + 1);
    }
  }

  lemma SchemeText(t: string)
    requires SchemeEnd(t) >= 0
    ensures SchemeEnd(t) + 3 <= |t| && t[SchemeEnd(t)..SchemeEnd(t) + 3] == "://"
  {
    hide SchemeEnd;
    SchemeBase(t);
    if t[..3] != "://" {
      SchemeStep(t);
      SchemeText(t[1..]);
      var end := SchemeEnd(t[1..]);
      assert t[1..][end..end + 3] == t[end + 1..end + 4];
    }
  }

  lemma SchemeBase(t: string)
    requires SchemeEnd(t) >= 0
    ensures |t| >= 3 && (t[..3] == "://" ==> SchemeEnd(t) == 0)
  {
  }

  lemma SchemeStep(t: string)
    requires |t| >= 3 && t[..3] != "://" && SchemeEnd(t) >= 0
    ensures SchemeEnd(t[1..]) >= 0 && SchemeEnd(t) == SchemeEnd(t[1..]) + 1
  {
  }

  lemma PrintedRelativeParts(p: Path)
    requires p.Valid() && p.root.Relative?
    ensures "" !in Split(p.Print())
  {
    if p.names == [] {
      SplitOfPlain(".");
    } else {
      NamesJoin(p.names, false);
      assert "./" + Join(p.names) == "." + "/" + Join(p.names);
      SplitAfterSlash(".", Join(p.names));
    }
  }

  lemma DoubleSlash(t: string, k: nat)
    requires k + 1 < |t| && t[k] == '/' && t[k + 1] == '/'
    ensures "" in Split(t)
  {
    var tail := t[k + 1..];
    assert t == t[..k] + "/" + tail;
    SplitAppend(t[..k], tail);
    assert Split(tail)[0] == "";
    assert (Split(t[..k]) + Split(tail))[|Split(t[..k])|] == "";
  }

  // ----- Reading a result back -----

  lemma CleanedDriveText(value: string)
    requires HasDriveRoot(value) && Cleaned(value).Ok?
    ensures |Cleaned(value).value| > 0 && IsLetter(Cleaned(value).value[0])
  {
    CleanedPrintsDenoted(value);
    DenotedRoot(value);
    DrivePrint(Denote(value).value);
  }

  lemma FinishIsCleaned(value: string, opts: Options)
    ensures Finish(value, opts).Ok? ==> Cleaned(value) == Finish(value, opts)
  {
  }

  /** Cleanup of a rooted text cannot lengthen it by more than one separator. */
  lemma RootedCleanupBound(value: string)
    requires Cleaned(value).Ok? && !RootOf(value).Relative?
    ensures |Cleaned(value).value| <= |value| + 1
  {
    hide SplitRootPrefix, Root.Prefix;
    CleanedPrintsDenoted(value);
    SplitRootShape(value);
    ResolveShrinks([], Split(Rest(value)), true);
    JoinSize(Split(Rest(value)));
    JoinOfSplit(Rest(value));
    var p := Denote(value).value;
    RootIsValid(value);
    LowerLength(RootOf(value));
    if p.names != [] {
      JoinSize(p.names);
    }
  }

  /** Unwrapping a canonical extended path and cleaning the rest never gives the extended path back. */
  lemma UnwrappingChanges(t: string)
    requires Cleaned(t) == Ok(t) && "//?/" <= t
    ensures Cleaned(UnwrapWindowsExtendedPrefix(t)) != Ok(t)
  {
    var value := UnwrapWindowsExtendedPrefix(t);
    CleanedSplits(t);
    if "//?/UNC/" <= t {
      if Cleaned(value).Ok? {
        assert "//" <= value;
        RootedCleanupBound(value);
      }
    } else if Cleaned(value).Ok? {
      assert HasDriveRoot(value);
      CleanedDriveText(value);
    }
  }

  lemma CrossHostRereads(t: string, opts: Options)
    requires Cleaned(t) == Ok(t) && Finish(t, opts) == Ok(t) && '\\' !in t
    ensures CrossHostInput(t, opts).Ok?
    ensures Finish(CrossHostInput(t, opts).value, opts) == Ok(t) <==>
      !IsURIWindowsDrivePath(t) && (opts.preserveExtendedLength || !("//?/" <= t))
  {
    hide Cleaned, Finish, Replace, SplitRoot;
    ReplacedHasNone(t);
    CleanedSplits(t);
    FinishIsCleaned(CrossHostInput(t, opts).value, opts);
    if IsURIWindowsDrivePath(t) {
      if Cleaned(t[1..]).Ok? {
        CleanedDriveText(t[1..]);
      }
    } else if "//?/" <= t && !opts.preserveExtendedLength {
      UnwrappingChanges(t);
      UnwrappedIsNotURIDrive(t);
    }
  }

  lemma UnwrappedIsNotURIDrive(t: string)
    requires Cleaned(t).Ok? && "//?/" <= t
    ensures !IsURIWindowsDrivePath(UnwrapWindowsExtendedPrefix(t))
  {
    CleanedSplits(t);
  }

  lemma WSLRereads(t: string, opts: Options, mount: string)
    requires Cleaned(t) == Ok(t) && Finish(t, opts) == Ok(t) && IsWSLCandidate(t)
    ensures WSLInput(t, opts, mount).Ok?
    ensures Finish(WSLInput(t, opts, mount).value, opts) == Ok(t) <==>
      opts.profile.PosixOnly? || MapWSLDrive(t, mount).None?
  {
    CandidateIsPrepared(t);
    hide Cleaned, PrepareNativePOSIX, SplitRoot, ValidateTargetProfile;
    if !opts.profile.PosixOnly? && MapWSLDrive(t, mount).Some? {
      var mapped := MapWSLDrive(t, mount).value;
      FinishIsCleaned(mapped, opts);
      assert HasDriveRoot(mapped);
      if Cleaned(mapped).Ok? {
        CleanedDriveText(mapped);
      }
    }
  }

  lemma CandidateIsPrepared(t: string)
    requires Cleaned(t) == Ok(t) && IsWSLCandidate(t)
    ensures PrepareNativePOSIX(t) == Ok(t)
  {
    hide SplitUNCRoot, Path.Print;
    CleanedPrintsDenoted(t);
    DenotedRoot(t);
    if "///" <= t {
      TripleSlashIsNotUNC(t);
    } else {
      assert Denote(t).value.root.Posix?;
      PrintIsPrepared(Denote(t).value);
    }
  }

  lemma TripleSlashIsNotUNC(t: string)
    requires "///" <= t
    ensures SplitRoot(t).Err?
  {
    assert t[2..][0] == '/';
    assert Split(t[2..])[0] == "";
  }

  /** Cross-host reading never returns a text with a backslash. */
  lemma BackslashChanges(t: string, opts: Options)
    requires '\\' in t && CrossHostInput(t, opts).Ok?
    ensures Finish(CrossHostInput(t, opts).value, opts) != Ok(t)
  {
    hide CrossHostInput, Cleaned, Finish;
    CrossHostHasNoBackslash(t, opts);
    var value := CrossHostInput(t, opts).value;
    FinishIsCleaned(value, opts);
    if Cleaned(value).Ok? {
      CleanedHasNoBackslash(value);
    }
  }

  /** A canonical text is finished as it stands exactly when policies and target profile take it. */
  lemma FinishOfCanonical(t: string, opts: Options)
    requires Cleaned(t) == Ok(t)
    ensures Finish(t, opts) == Ok(t) <==>
      ValidateWindowsComponents(t, opts).Ok? && ValidateTargetProfile(t, opts.profile).Ok?
  {
    hide SplitRoot, ValidateWindowsComponents, ValidateTargetProfile, Cleaned;
    CleanedSplits(t);
  }

  /**
   * Any canonical string that is read as raw input comes back unchanged exactly when the options' mount, policies and
   * target profile take it, and it passes the caller's test.
   */
  lemma RereadsExactly(t: string, opts: Options, decodeUri: string -> Result<string>)
    requires IsRawHost(opts.host) && Cleaned(t) == Ok(t)
    ensures Normalized(t, opts, decodeUri) == Ok(t) <==>
      && NormalizeMountRoot(opts.mountRoot).Ok?
      && ValidateWindowsComponents(t, opts).Ok? && ValidateTargetProfile(t, opts.profile).Ok?
      && RereadsUnchanged(t, opts, NormalizeMountRoot(opts.mountRoot).value)
  {
    hide NormalizeMountRoot, WSLInput, CrossHostInput, Cleaned, Finish, HasURIScheme, IsWSLCandidate, IsURIWindowsDrivePath,
      MapWSLDrive, ValidateWindowsComponents, ValidateTargetProfile;
    CanonicalHasNoScheme(t);
    CleanedSplits(t);
    FinishOfCanonical(t, opts);
    if NormalizeMountRoot(opts.mountRoot).Ok? {
      var mount := NormalizeMountRoot(opts.mountRoot).value;
      if Normalized(t, opts, decodeUri) == Ok(t) {
        FinishIsStable(RawInput(t, opts, mount, decodeUri).value, opts);
      }
      if Finish(t, opts) == Ok(t) {
        if opts.wslEnabled && IsWSLCandidate(t) {
          WSLRereads(t, opts, mount);
        } else if '\\' in t {
          if CrossHostInput(t, opts).Ok? {
            BackslashChanges(t, opts);
          }
        } else {
          CrossHostRereads(t, opts);
        }
      }
    }
  }

  /** So a raw-mode result is stable under its own options exactly when it passes the test. */
  lemma RawModeStableIff(raw: string, opts: Options, decodeUri: string -> Result<string>)
    requires IsRawHost(opts.host) && Normalized(raw, opts, decodeUri).Ok?
    ensures NormalizeMountRoot(opts.mountRoot).Ok?
    ensures var t := Normalized(raw, opts, decodeUri).value;
      Normalized(t, opts, decodeUri) == Ok(t) <==>
        RereadsUnchanged(t, opts, NormalizeMountRoot(opts.mountRoot).value)
  {
    hide NormalizeMountRoot, RawInput, Cleaned, Finish, RereadsUnchanged, ValidateWindowsComponents, ValidateTargetProfile;
    var t := Normalized(raw, opts, decodeUri).value;
    RawResult(raw, opts, decodeUri);
    FinishOfCanonical(t, opts);
    RereadsExactly(t, opts, decodeUri);
  }

  /** The default options: unlabelled raw input. */
  const DEFAULT_OPTIONS := Options(Unspecified, AnyProfile, false, "", false, false, false)

  /** `/a/../C:/x` becomes `/C:/x`, which becomes `c:/x`. */
  lemma RawModeIsNotIdempotent(decodeUri: string -> Result<string>)
    ensures Normalized("/a/../C:/x", DEFAULT_OPTIONS, decodeUri) == Ok("/C:/x")
    ensures Normalized("/C:/x", DEFAULT_OPTIONS, decodeUri) == Ok("c:/x")
  {
    hide Cleaned, SplitRoot, NormalizeMountRoot, CrossHostInput, HasURIScheme;
    DefaultMount();
    NoSchemeAfterSlash("/a/../C:/x");
    NoSchemeAfterSlash("/C:/x");
    FirstInput();
    SecondInput();
    FirstPass();
    SecondPass();
  }

  lemma FirstInput()
    ensures CrossHostInput("/a/../C:/x", DEFAULT_OPTIONS) == Ok("/a/../C:/x")
  {
    hide Replace;
    assert '\\' !in "/a/../C:/x" && "/a/../C:/x"[1] == 'a';
    ReplacedHasNone("/a/../C:/x");
  }

  lemma SecondInput()
    ensures CrossHostInput("/C:/x", DEFAULT_OPTIONS) == Ok("C:/x")
  {
    hide Replace;
    assert '\\' !in "/C:/x" && "/C:/x"[1] == 'C';
    ReplacedHasNone("/C:/x");
    assert "/C:/x"[1..] == "C:/x";
  }

  lemma DefaultMount()
    ensures NormalizeMountRoot("") == Ok("/mnt")
  {
    var mount := Path(Posix, ["mnt"]);
    assert mount.Print() == "/mnt";
    PrintIsPrepared(mount);
    CleanedOfPrint(mount);
  }

  lemma FirstPass()
    ensures Cleaned("/a/../C:/x") == Ok("/C:/x")
    ensures SplitRoot("/a/../C:/x").Ok? && SplitRoot("/C:/x").Ok?
  {
    hide Split, Resolve, Join;
    SplitExample();
    ResolveExample();
    var p := Path(Posix, ["C:", "x"]);
    assert "/a/../C:/x"[1..] == "a/../C:/x" && "/a/../C:/x"[1] == 'a' && "/C:/x"[1] == 'C';
    assert Reassemble("/", p.names) == "/C:/x" by {
      JoinExample();
    }
  }

  lemma JoinExample()
    ensures Join(["C:", "x"]) == "C:/x"
  {
  }

  lemma SplitExample()
    ensures Split("a/../C:/x") == ["a", "..", "C:", "x"]
  {
    hide Split;
    SplitOfPlain("x");
    assert "C:/x" == "C:" + "/" + "x";
    SplitAfterSlash("C:", "x");
    assert "../C:/x" == ".." + "/" + "C:/x";
    SplitAfterSlash("..", "C:/x");
    assert "a/../C:/x" == "a" + "/" + "../C:/x";
    SplitAfterSlash("a", "../C:/x");
  }

  lemma ResolveExample()
    ensures Resolve([], ["a", "..", "C:", "x"], true) == Some(["C:", "x"])
  {
    ResolveOfNames([], ["C:", "x"], true);
    assert ["a", "..", "C:", "x"][1..] == ["..", "C:", "x"] && ["..", "C:", "x"][1..] == ["C:", "x"];
    assert [] + ["a"] == ["a"] && ["a"][..0] == [] && [] + ["C:", "x"] == ["C:", "x"];
    assert Resolve(["a"], ["..", "C:", "x"], true) == Resolve([], ["C:", "x"], true);
  }

  lemma SecondPass()
    ensures Cleaned("C:/x") == Ok("c:/x") && SplitRoot("C:/x").Ok? && SplitRoot("c:/x").Ok?
  {
    var p := Path(Drive('C'), ["x"]);
    assert p.Print() == "C:/x";
    assert ToLower('C') == 'c' && p.Lower().Print() == "c:/x";
    CleanedOfPrint(p);
    PrintSplits(p);
    PrintSplits(p.Lower());
  }

  // ----- The strict relative validator -----

  predicate IsAbsolutePathLike(value: string) {
    "/" <= value || "\\\\" <= value || HasDriveRoot(Replace(value, '\\', '/'))
  }

  /** What the strict validator of untrusted relative input returns. It puts no drive marker back. */
  function StrictRelative(raw: string): Result<string> {
    if raw == "" then Err(EmptyPath)
    else if raw == "." then Ok(".")
    else if '\0' in raw then Err(NulByte)
    else if IsAbsolutePathLike(raw) then Err(AbsolutePath)
    else if IsDriveRelative(raw) then Err(DriveRelativePath)
    else if '\\' in raw then Err(InvalidPath)
    else
      match Resolve([], Split(raw), false)
      case None => Err(OutsideRoot)
      case Some(names) => if names == [] then Err(EmptyPath) else Ok(Join(names))
  }

  method NormalizeRelative(raw: string) returns (r: Result<string>)
    ensures r == StrictRelative(raw)
  {
    if raw == "" {
      return Err(EmptyPath);
    }
    if raw == "." {
      return Ok(".");
    }
    if '\0' in raw {
      return Err(NulByte);
    }
    if IsAbsolutePathLike(raw) {
      return Err(AbsolutePath);
    }
    if IsDriveRelative(raw) {
      return Err(DriveRelativePath);
    }
    if '\\' in raw {
      return Err(InvalidPath);
    }
    var rest := Split(raw);
    var parts: seq<string> := [];
    for i := 0 to |rest|
      invariant Resolve([], rest, false) == Resolve(parts, rest[i..], false)
    {
      var part := rest[i];
      if part == "" || part == "." {
      } else if part == ".." {
        if |parts| == 0 {
          return Err(OutsideRoot);
        }
        parts := parts[..|parts| - 1];
      } else {
        parts := parts + [part];
      }
    }
    if |parts| == 0 {
      return Err(EmptyPath);
    }
    return Ok(Join(parts));
  }

  /** A list of names is read back by the strict validator exactly when it has no backslash and starts like no drive. */
  lemma StrictRelativeOfNames(names: seq<string>)
    requires Names(names, false) && names != []
    ensures StrictRelative(Join(names)) == Ok(Join(names)) <==> '\\' !in Join(names) && !NeedsRelativeMarker(Join(names))
  {
    hide Split, Join, Replace;
    NamesJoin(names, false);
    ReplacedHasNone(Join(names));
    ResolveOfNames([], names, false);
    assert [] + names == names;
  }

  /** The strict validator returns a canonical string unchanged exactly when it is relative, unmarked and free of backslashes. */
  lemma StrictRelativeExactly(t: string)
    requires Cleaned(t) == Ok(t)
    ensures StrictRelative(t) == Ok(t) <==> RootOf(t).Relative? && !HasRelativeMarker(t) && '\\' !in t
  {
    hide Split, Join, Resolve, Root.Prefix, RootOf;
    CleanedPrintsDenoted(t);
    CleanedSplits(t);
    var p := Denote(t).value;
    PrintSplits(p);
    if !p.root.Relative? {
      RootedIsAbsolute(p);
    } else if p.names != [] {
      NamesJoin(p.names, false);
      if NeedsRelativeMarker(Join(p.names)) {
        MarkedIsStripped(p.names);
      } else {
        StrictRelativeOfNames(p.names);
      }
    }
  }

  lemma RootedIsAbsolute(p: Path)
    requires p.Valid() && !p.root.Relative?
    ensures StrictRelative(p.Print()).Err?
  {
    hide Split, Join, Resolve;
    if p.root.Drive? {
      DrivePrint(p);
      var t := p.Print();
      assert Replace(t, '\\', '/')[0] == t[0] && Replace(t, '\\', '/')[1] == ':' && Replace(t, '\\', '/')[2] == '/';
    } else {
      RootedText(p);
      assert p.Print()[0] == '/' && "."[0] == '.';
    }
  }

  /** The validator takes a marker for a dot component and drops it. */
  lemma MarkedIsStripped(names: seq<string>)
    requires Names(names, false) && names != [] && NeedsRelativeMarker(Join(names))
    ensures StrictRelative("./" + Join(names)) != Ok("./" + Join(names))
  {
    hide Split, Join, Replace, Resolve, NeedsRelativeMarker, IsAbsolutePathLike, IsDriveRelative;
    var text := Join(names);
    MarkedResolves(names);
    assert ("./" + text)[0] == '.';
    NamesJoin(names, false);
    assert |"./" + text| == |text| + 2;
  }

  lemma MarkedResolves(names: seq<string>)
    requires Names(names, false) && names != []
    ensures Resolve([], Split("./" + Join(names)), false) == Some(names)
  {
    hide Split, Join, Resolve, Name;
    var text := Join(names);
    NamesJoin(names, false);
    assert "./" + text == "." + "/" + text;
    SplitAfterSlash(".", text);
    DotsResolveAway(names, false);
    AreNames(names);
    ResolveOfNames([], names, false);
    assert [] + names == names;
  }

  lemma AreNames(names: seq<string>)
    requires Names(names, false)
    ensures forall i :: 0 <= i < |names| ==> names[i] != "" && !IsDots(names[i])
  {
  }

  /** The strict validator accepts its own result exactly when that result does not look drive-qualified. */
  lemma StrictRelativeStableIff(raw: string)
    requires StrictRelative(raw).Ok?
    ensures var t := StrictRelative(raw).value; StrictRelative(t) == Ok(t) <==> !NeedsRelativeMarker(t)
  {
    hide Split, Join, Replace;
    if raw != "." {
      PartsAreClean(raw, true);
      ResolveYieldsNames([], Split(raw), false, true);
      var names := Resolve([], Split(raw), false).value;
      NamesJoin(names, true);
      StrictRelativeOfNames(names);
    }
  }

  /** `x/../C:foo` becomes `C:foo`, which is refused. */
  lemma StrictRelativeIsNotIdempotent()
    ensures StrictRelative("x/../C:foo") == Ok("C:foo")
    ensures StrictRelative("C:foo") == Err(DriveRelativePath)
  {
    hide Split, Replace, Resolve;
    var raw := "x/../C:foo";
    SplitOfPlain("C:foo");
    assert "../C:foo" == ".." + "/" + "C:foo" && raw == "x" + "/" + "../C:foo";
    SplitAfterSlash("..", "C:foo");
    SplitAfterSlash("x", "../C:foo");
    assert Split(raw) == ["x", "..", "C:foo"];
    ShortResolve("x", "C:foo");
    assert '\\' !in raw && raw[0] == 'x' && raw[1] == '/' && '\\' !in "C:foo" && "C:foo"[2] == 'f';
    ReplacedHasNone(raw);
    ReplacedHasNone("C:foo");
  }

  lemma ShortResolve(a: string, b: string)
    requires a != "" && !IsDots(a) && b != "" && !IsDots(b)
    ensures Resolve([], [a, "..", b], false) == Some([b])
  {
    ResolveOfNames([], [b], false);
    assert [a, "..", b][1..] == ["..", b] && ["..", b][1..] == [b];
    assert [] + [a] == [a] && [a][..0] == [] && [] + [b] == [b];
    assert Resolve([a], ["..", b], false) == Resolve([], [b], false);
  }
}
