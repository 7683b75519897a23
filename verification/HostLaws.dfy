/** Canonical paths written for WSL and Windows hosts are read back unchanged. */
module HostLaws {
  import opened Text
  import opened Grammar
  import opened Identity
  import opened RelativePaths
  import opened Normalize
  import opened NormalizeLaws

  /** Hosts whose input goes through the raw cross-host grammar. */
  predicate IsRawHost(host: Host) {
    !host.NativePosix? && !host.Canonical?
  }

  // ----- Mount roots by components -----

  lemma MountIsPrinted(mountRoot: string)
    requires NormalizeMountRoot(mountRoot).Ok?
    ensures exists ms: seq<string> ::
      Names(ms, false) && NormalizeMountRoot(mountRoot).value == Path(Posix, ms).Print()
  {
    hide PrepareNativePOSIX, Denote, Path.Print, Cleaned;
    var mount := if mountRoot == "" then "/mnt" else mountRoot;
    var prepared := PrepareNativePOSIX(mount).value;
    PreparedRoot(mount);
    CleanedPrintsDenoted(prepared);
    DenotedRoot(prepared);
    var p := Denote(prepared).value;
    assert p == Path(Posix, p.names);
  }

  /** The stem of a mount is empty for the root mount and the mount itself otherwise. */
  lemma MountStem(ms: seq<string>)
    requires Names(ms, false)
    ensures WithoutFinalSlash(Path(Posix, ms).Print()) == if ms == [] then "" else "/" + Join(ms)
  {
    var mount := Path(Posix, ms).Print();
    if ms != [] {
      LastOfJoin(ms);
      assert mount == "/" + Join(ms);
    }
  }

  lemma PosixText(xs: seq<string>)
    ensures Path(Posix, xs).Print() == "/" + Join(xs)
  {
  }

  /** Matching a mount's text is matching its components, and what is left is the other components. */
  lemma MountMatchesComponents(ms: seq<string>, xs: seq<string>)
    requires Names(ms, false) && Names(xs, false)
    ensures var prefix, value := WithoutFinalSlash(Path(Posix, ms).Print()) + "/", Path(Posix, xs).Print();
      && (prefix <= value <==> ms <= xs && (ms == [] || |ms| < |xs|))
      && (prefix <= value ==> value[|prefix|..] == Join(xs[|ms|..]))
  {
    hide Path.Print, WithoutFinalSlash, Join, Split;
    MountStem(ms);
    PosixText(xs);
    if ms == [] {
      assert xs[0..] == xs;
    } else {
      TextPrefixIffNamePrefix(ms, xs);
    }
  }

  lemma TextPrefixIffNamePrefix(ms: seq<string>, xs: seq<string>)
    requires Names(ms, false) && Names(xs, false) && ms != []
    ensures var prefix, value := "/" + Join(ms) + "/", "/" + Join(xs);
      && (prefix <= value <==> ms <= xs && |ms| < |xs|)
      && (prefix <= value ==> value[|prefix|..] == Join(xs[|ms|..]))
  {
    hide Join, Split, Name;
    var prefix, value := "/" + Join(ms) + "/", "/" + Join(xs);
    if ms <= xs && |ms| < |xs| {
      var more := xs[|ms|..];
      assert xs == ms + more;
      JoinAppend(ms, more);
      PrefixText(Join(ms), Join(more));
    }
    if prefix <= value {
      assert value == prefix + value[|prefix|..];
      TextPrefixIsNamePrefix(ms, xs, value[|prefix|..]);
    }
  }

  lemma PrefixText(a: string, b: string)
    ensures "/" + (a + "/" + b) == "/" + a + "/" + b
    ensures "/" + a + "/" <= "/" + (a + "/" + b)
  {
  }

  lemma TextPrefixIsNamePrefix(ms: seq<string>, xs: seq<string>, rest: string)
    requires Names(ms, false) && Names(xs, false) && ms != []
    requires "/" + Join(xs) == "/" + Join(ms) + "/" + rest
    ensures ms <= xs && |ms| < |xs| && rest == Join(xs[|ms|..])
  {
    hide Split, Join;
    CancelSlash(Join(xs), Join(ms), rest);
    SplitAppend(Join(ms), rest);
    NamesJoin(ms, false);
    JoinOfNothing();
    if xs != [] {
      NamesJoin(xs, false);
    }
    JoinOfSplit(rest);
    assert xs == ms + Split(rest);
    assert xs[|ms|..] == Split(rest);
  }

  lemma CancelSlash(a: string, b: string, c: string)
    requires "/" + a == "/" + b + "/" + c
    ensures a == b + "/" + c && a != ""
  {
    var whole := "/" + b + "/" + c;
    assert whole == "/" + (b + "/" + c);
    assert a == whole[1..];
  }

  /** A mount maps a path exactly when the component after the mount is one ASCII letter. */
  lemma MapByComponents(ms: seq<string>, xs: seq<string>)
    requires Names(ms, false) && Names(xs, false)
    ensures MapWSLDrive(Path(Posix, xs).Print(), Path(Posix, ms).Print()) ==
      if ms <= xs && |ms| < |xs| && |xs[|ms|]| == 1 && IsLetter(xs[|ms|][0]) then
        Some([ToLower(xs[|ms|][0])] + ":/" + Join(xs[|ms| + 1..]))
      else None
  {
    hide Path.Print, WithoutFinalSlash, Split;
    MountMatchesComponents(ms, xs);
    if ms <= xs && |ms| < |xs| {
      var ys := xs[|ms|..];
      DriveComponent(ys);
      assert ys[1..] == xs[|ms| + 1..];
    } else if ms == xs {
      assert xs[|ms|..] == [];
    }
  }

  lemma DriveComponent(ys: seq<string>)
    requires Names(ys, false) && ys != []
    ensures var rest := Join(ys);
      && |rest| >= 1 && rest[0] == ys[0][0]
      && (|ys[0]| == 1 <==> |rest| == 1 || rest[1] == '/')
      && (|ys[0]| == 1 ==> Join(ys[1..]) == if |rest| == 1 then "" else rest[2..])
  {
    JoinNonEmpty(ys);
    var rest := Join(ys);
    if |ys| == 1 {
      assert ys[1..] == [];
    } else {
      NamesJoin(ys[1..], false);
      assert rest == ys[0] + "/" + Join(ys[1..]);
    }
    if |ys[0]| > 1 {
      assert rest[1] == ys[0][1];
    }
  }

  /** The text of a path whose component after the mount is the drive letter `d`. */
  lemma MountedText(ms: seq<string>, d: char, names: seq<string>)
    requires Names(ms, false) && Names(names, false) && IsLetter(d)
    ensures Names(ms + [[d]] + names, false)
    ensures Path(Posix, ms + [[d]] + names).Print()
      == WithoutFinalSlash(Path(Posix, ms).Print()) + "/" + [d] + (if names == [] then "" else "/" + Join(names))
  {
    hide Path.Print, WithoutFinalSlash, Join, Split, Names;
    NamesAround(ms, d, names);
    MountStem(ms);
    var tail := [[d]] + names;
    assert ms + [[d]] + names == ms + tail;
    PosixText(ms + tail);
    DriveTail(d, names);
    var rest := if names == [] then "" else "/" + Join(names);
    if ms == [] {
      assert ms + tail == tail;
      assert "/" + ([d] + rest) == "" + "/" + [d] + rest;
    } else {
      JoinAppend(ms, tail);
      Regroup(Join(ms), [d], rest);
    }
  }

  lemma NamesAround(ms: seq<string>, d: char, names: seq<string>)
    requires Names(ms, false) && Names(names, false) && IsLetter(d)
    ensures Names(ms + [[d]] + names, false)
  {
  }

  lemma Regroup(a: string, b: string, c: string)
    ensures "/" + (a + "/" + (b + c)) == "/" + a + "/" + b + c
  {
  }

  lemma DriveTail(d: char, names: seq<string>)
    ensures Join([[d]] + names) == [d] + (if names == [] then "" else "/" + Join(names))
  {
    assert ([[d]] + names)[1..] == names;
  }

  /** Writing a drive path for WSL puts its letter, in lower case, after the mount. */
  lemma ToWSLText(d: char, names: seq<string>, mountRoot: string, ms: seq<string>)
    requires IsLetter(d) && Names(names, true) && Names(ms, false)
    requires NormalizeMountRoot(mountRoot) == Ok(Path(Posix, ms).Print())
    ensures ToWSL(Path(Drive(d), names).Print(), mountRoot)
      == Ok(Path(Posix, ms + [[ToLower(d)]] + names).Print())
  {
    hide NormalizeMountRoot, ParseCleanCanonical, WithoutFinalSlash;
    var p := Path(Drive(d), names);
    assert p.Valid();
    ParsedOfPrint(p);
    MountedText(ms, ToLower(d), names);
    assert p.root.Prefix() == [d, ':', '/'];
    assert p.Print() == [d, ':', '/'] + Join(names);
    assert p.Print()[3..] == Join(names);
    if names != [] {
      NamesJoin(names, true);
    }
  }

  lemma NoSchemeAfterSlash(value: string)
    requires "/" <= value
    ensures !HasURIScheme(value)
  {
    assert SchemeEnd(value) > 0 ==> !IsSchemeChar(value[0]);
  }

  // ----- WSL -----

  predicate TakesDrives(profile: Profile) {
    profile.AnyProfile? || profile.Portable? || profile.Win32Drive?
  }

  /**
   * A canonical drive path that was written for WSL is read back, under the same mount, exactly when the options' target
   * profile takes drives and their policies take the written text, mount included.
   */
  lemma NormalizeUndoesToWSL(value: string, opts: Options, decodeUri: string -> Result<string>)
    requires Cleaned(value) == Ok(value) && SplitRoot(value).Ok? && RootOf(value).Drive?
    requires IsRawHost(opts.host) && opts.wslEnabled && NormalizeMountRoot(opts.mountRoot).Ok?
    ensures ToWSL(value, opts.mountRoot).Ok?
    ensures var written := ToWSL(value, opts.mountRoot).value;
      Normalized(written, opts, decodeUri) == Ok(value) <==>
        TakesDrives(opts.profile) && ValidateWindowsComponents(written, opts).Ok?
  {
    MountIsPrinted(opts.mountRoot);
    var ms :| Names(ms, false) && NormalizeMountRoot(opts.mountRoot).value == Path(Posix, ms).Print();
    CleanedPrintsDenoted(value);
    DenotedRoot(value);
    var p := Denote(value).value;
    ToWSLText(p.root.letter, p.names, opts.mountRoot, ms);
    WSLReadsBack(p, ms, opts, decodeUri);
  }

  lemma WSLReadsBack(p: Path, ms: seq<string>, opts: Options, decodeUri: string -> Result<string>)
    requires p.Normal() && p.root.Drive? && Names(ms, false) && IsRawHost(opts.host) && opts.wslEnabled
    requires NormalizeMountRoot(opts.mountRoot) == Ok(Path(Posix, ms).Print())
    ensures var written := Path(Posix, ms + [[p.root.letter]] + p.names).Print();
      Normalized(written, opts, decodeUri) == Ok(p.Print()) <==>
        TakesDrives(opts.profile) && ValidateWindowsComponents(written, opts).Ok?
  {
    hide NormalizeMountRoot, MapWSLDrive, Path.Print, Cleaned, PrepareNativePOSIX, Finish, ValidateWindowsComponents, HasURIScheme;
    var d, names := p.root.letter, p.names;
    MountedText(ms, d, names);
    var xs := ms + [[d]] + names;
    var q := Path(Posix, xs);
    assert q.Valid();
    assert xs[|ms|] == [d] && xs[|ms| + 1..] == names && ms <= xs;
    MapByComponents(ms, xs);
    PosixPrint(q);
    PrintIsPrepared(q);
    CleanedOfPrint(q);
    NoSchemeAfterSlash(q.Print());
    DrivePrint(p);
    FinishOfDrive(p, opts);
    NotTheDrive(p, q, opts);
    PoliciesOfFewerNames(p, q, opts);
  }

  /** Policies that take a POSIX path take a path with no other names. */
  lemma PoliciesOfFewerNames(p: Path, q: Path, opts: Options)
    requires p.Valid() && q.Valid() && q.root.Posix? && q.names != []
    requires forall name :: name in p.names ==> name in q.names
    ensures ValidateWindowsComponents(q.Print(), opts).Ok? ==> ValidateWindowsComponents(p.Print(), opts).Ok?
  {
    hide Path.Print, SplitRoot, Split, Join, DeviceBase, IsReservedDeviceBase;
    PrintedPartsAreNames(p);
    PrintSplits(q);
    NamesJoin(q.names, false);
    var parts := Split(Rest(q.Print()));
    if ':' in Rest(p.Print()) {
      CharInJoin(p.names, ':');
      CharInSplit(Rest(q.Print()), ':');
      var i :| 0 <= i < |p.names| && ':' in p.names[i];
      assert p.names[i] in p.names;
      var j :| 0 <= j < |parts| && parts[j] == p.names[i];
    }
    if i :| 0 <= i < |Split(Rest(p.Print()))| && IsReservedPart(Split(Rest(p.Print()))[i]) {
      var part := Split(Rest(p.Print()))[i];
      assert part in p.names;
      var j :| 0 <= j < |parts| && parts[j] == part;
    }
  }

  /** A POSIX result is no drive path. */
  lemma NotTheDrive(p: Path, q: Path, opts: Options)
    requires p.Valid() && p.root.Drive? && q.Valid() && q.root.Posix?
    ensures Finish(q.Print(), opts) != Ok(p.Print())
  {
    hide Path.Print, Finish;
    FinishOfPosix(q.names, opts);
    assert q == Path(Posix, q.names);
    PrintSplits(p);
    PrintSplits(q);
  }

  lemma PosixPrint(q: Path)
    requires q.Valid() && q.root.Posix?
    ensures "/" <= q.Print() && !("//" <= q.Print()) && '\0' !in q.Print() && IsWSLCandidate(q.Print())
  {
    PrintHasNoNul(q);
    PosixText(q.names);
    if q.names != [] {
      NamesJoin(q.names, false);
      assert q.Print()[1] == Join(q.names)[0];
    }
  }

  lemma DrivePrint(p: Path)
    requires p.Valid() && p.root.Drive?
    ensures p.Print() == [p.root.letter] + ":/" + Join(p.names)
  {
    assert p.root.Prefix() + "" == p.root.Prefix();
  }

  lemma FinishOfDrive(p: Path, opts: Options)
    requires p.Normal() && p.root.Drive?
    ensures Finish(p.Print(), opts) == Ok(p.Print()) <==>
      TakesDrives(opts.profile) && ValidateWindowsComponents(p.Print(), opts).Ok?
  {
    hide Cleaned, SplitRoot, RootOf, Path.Print, ValidateWindowsComponents;
    CleanedOfPrint(p);
    PrintSplits(p);
    PrintHasNoNul(p);
    ProfileJudgesRoot(p.Print());
    SomeProfile(p.Print());
  }

  lemma SomeProfile(value: string)
    requires SplitRoot(value).Ok?
    ensures ValidateTargetProfile(value, AnyProfile).Ok? && ValidateTargetProfile(value, Unsupported).Err?
  {
  }

  /**
   * What a mapped input gives back is its cleaned POSIX form with the drive component in lower case. A URI counts as the
   * text it decodes to.
   */
  lemma ToWSLUndoesNormalize(raw: string, opts: Options, decodeUri: string -> Result<string>)
    requires IsRawHost(opts.host) && opts.wslEnabled && Normalized(raw, opts, decodeUri).Ok?
    requires var text := RawText(raw, opts, decodeUri);
      text.Ok? ==> IsWSLCandidate(text.value) && !(HasURIScheme(raw) && IsURIWindowsDrivePath(text.value))
    requires SplitRoot(Normalized(raw, opts, decodeUri).value).Ok?
    requires RootOf(Normalized(raw, opts, decodeUri).value).Drive?
    ensures NormalizeMountRoot(opts.mountRoot).Ok? && RawText(raw, opts, decodeUri).Ok?
    ensures CleanNativePOSIX(RawText(raw, opts, decodeUri).value).Ok?
    ensures var c := CleanNativePOSIX(RawText(raw, opts, decodeUri).value).value;
      var k := |WithoutFinalSlash(NormalizeMountRoot(opts.mountRoot).value)| + 1;
      && k < |c| && IsLetter(c[k])
      && ToWSL(Normalized(raw, opts, decodeUri).value, opts.mountRoot) == Ok(c[k := ToLower(c[k])])
  {
    hide NormalizeMountRoot, MapWSLDrive, Path.Print, Cleaned, PrepareNativePOSIX, Finish, Denote, RootOf, ToWSL,
      ValidateWindowsComponents, SplitRoot, RawText, IsWSLCandidate, Normalized, CleanNativePOSIX;
    CandidateIsMapped(raw, opts, decodeUri);
    MountIsPrinted(opts.mountRoot);
    var ms :| Names(ms, false) && NormalizeMountRoot(opts.mountRoot).value == Path(Posix, ms).Print();
    var text := RawText(raw, opts, decodeUri).value;
    var c := CleanNativePOSIX(text).value;
    var q := Normalized(raw, opts, decodeUri).value;
    var xs := CandidateComponents(text, opts);
    MapByComponents(ms, xs);
    if MapWSLDrive(c, Path(Posix, ms).Print()).None? || opts.profile.PosixOnly? {
      FinishOfPosix(xs, opts);
      assert false;
    } else {
      WrittenBack(ms, xs, opts);
    }
  }

  /** Writing a mapped and accepted drive path gives the mounted path back, its drive component in lower case. */
  lemma WrittenBack(ms: seq<string>, xs: seq<string>, opts: Options)
    requires Names(ms, false) && Names(xs, false) && NormalizeMountRoot(opts.mountRoot) == Ok(Path(Posix, ms).Print())
    requires ms <= xs && |ms| < |xs| && |xs[|ms|]| == 1 && IsLetter(xs[|ms|][0])
    requires Finish([ToLower(xs[|ms|][0])] + ":/" + Join(xs[|ms| + 1..]), opts).Ok?
    ensures var q := Finish([ToLower(xs[|ms|][0])] + ":/" + Join(xs[|ms| + 1..]), opts).value;
      var c, k := Path(Posix, xs).Print(), |WithoutFinalSlash(Path(Posix, ms).Print())| + 1;
      && k < |c| && IsLetter(c[k]) && ToWSL(q, opts.mountRoot) == Ok(c[k := ToLower(c[k])])
  {
    hide NormalizeMountRoot, Path.Print, Finish, ToWSL, WithoutFinalSlash, Join;
    var d, names := xs[|ms|][0], xs[|ms| + 1..];
    assert xs[|ms|] == [d] && xs == ms + [[d]] + names;
    MappedResult(d, names, opts);
    ToWSLText(ToLower(d), names, opts.mountRoot, ms);
    LoweredDrive(ms, d, names);
  }

  /** A candidate is finished as its mapped drive text, or as its cleaned POSIX text if it is not mapped. */
  lemma CandidateIsMapped(raw: string, opts: Options, decodeUri: string -> Result<string>)
    requires IsRawHost(opts.host) && opts.wslEnabled && Normalized(raw, opts, decodeUri).Ok?
    requires var text := RawText(raw, opts, decodeUri);
      text.Ok? ==> IsWSLCandidate(text.value) && !(HasURIScheme(raw) && IsURIWindowsDrivePath(text.value))
    ensures NormalizeMountRoot(opts.mountRoot).Ok? && RawText(raw, opts, decodeUri).Ok?
    ensures CleanNativePOSIX(RawText(raw, opts, decodeUri).value).Ok?
    ensures var c := CleanNativePOSIX(RawText(raw, opts, decodeUri).value).value;
      var mapped := MapWSLDrive(c, NormalizeMountRoot(opts.mountRoot).value);
      Normalized(raw, opts, decodeUri) ==
        Finish(if opts.profile.PosixOnly? || mapped.None? then c else mapped.value, opts)
  {
    hide NormalizeMountRoot, MapWSLDrive, Cleaned, PrepareNativePOSIX, Finish, ValidateWindowsComponents, RawText,
      IsWSLCandidate, IsURIWindowsDrivePath;
  }

  lemma LoweredDrive(ms: seq<string>, d: char, names: seq<string>)
    requires Names(ms, false) && Names(names, false) && IsLetter(d)
    ensures var k, c := |WithoutFinalSlash(Path(Posix, ms).Print())| + 1, Path(Posix, ms + [[d]] + names).Print();
      && k < |c| && c[k] == d
      && c[k := ToLower(d)] == Path(Posix, ms + [[ToLower(d)]] + names).Print()
  {
    hide Path.Print, WithoutFinalSlash, Join;
    MountedText(ms, d, names);
    MountedText(ms, ToLower(d), names);
    var head, tail := WithoutFinalSlash(Path(Posix, ms).Print()) + "/", if names == [] then "" else "/" + Join(names);
    assert (head + [d] + tail)[|head| := ToLower(d)] == head + [ToLower(d)] + tail;
  }

  lemma CandidateComponents(raw: string, opts: Options) returns (xs: seq<string>)
    requires IsWSLCandidate(raw) && CleanNativePOSIX(raw).Ok?
    ensures Names(xs, false) && CleanNativePOSIX(raw).value == Path(Posix, xs).Print()
  {
    hide PrepareNativePOSIX, Denote, Path.Print, Cleaned;
    var prepared := PrepareNativePOSIX(raw).value;
    PreparedRoot(raw);
    CleanedPrintsDenoted(prepared);
    DenotedRoot(prepared);
    xs := Denote(prepared).value.names;
    assert Denote(prepared).value == Path(Posix, xs);
  }

  lemma FinishOfPosix(xs: seq<string>, opts: Options)
    requires Names(xs, false)
    ensures Finish(Path(Posix, xs).Print(), opts).Ok? ==>
      && Finish(Path(Posix, xs).Print(), opts).value == Path(Posix, xs).Print()
      && SplitRoot(Path(Posix, xs).Print()).Ok? && RootOf(Path(Posix, xs).Print()).Posix?
  {
    hide Cleaned, SplitRoot, RootOf, Path.Print;
    CleanedOfPrint(Path(Posix, xs));
    PrintSplits(Path(Posix, xs));
  }

  /** A mapped text that normalization accepts has no backslash and is its own result. */
  lemma MappedResult(d: char, names: seq<string>, opts: Options)
    requires IsLetter(d) && Names(names, false)
    requires Finish([ToLower(d)] + ":/" + Join(names), opts).Ok?
    ensures Names(names, true)
    ensures Finish([ToLower(d)] + ":/" + Join(names), opts).value == Path(Drive(ToLower(d)), names).Print()
  {
    var text := [ToLower(d)] + ":/" + Join(names);
    assert SplitRoot(text).Ok? && '\\' !in text;
    CharInJoin(names, '\\');
    assert Names(names, true);
    var p := Path(Drive(ToLower(d)), names);
    CleanedOfPrint(p);
    DrivePrint(p);
  }
}
