/** Which ways of normalizing are stable, and which are exactly when. */
module NormalizeLaws {
  import opened Text
  import opened Grammar
  import opened Identity
  import opened Normalize

  // ----- Surviving components were checked before cleanup -----

  lemma {:induction false} ResolveKeepsParts(stack: seq<string>, parts: seq<string>, clamp: bool)
    ensures Resolve(stack, parts, clamp).Some? ==>
      forall name :: name in Resolve(stack, parts, clamp).value ==> name in stack || name in parts
    decreases |parts|
  {
    if parts == [] {
    } else if parts[0] == "" || parts[0] == "." {
      ResolveKeepsParts(stack, parts[1..], clamp);
    } else if parts[0] == ".." {
      if |stack| > 0 {
        ResolveKeepsParts(stack[..|stack| - 1], parts[1..], clamp);
      } else if clamp {
        ResolveKeepsParts(stack, parts[1..], clamp);
      }
    } else {
      ResolveKeepsParts(stack + [parts[0]], parts[1..], clamp);
    }
  }

  /** The text after the root of an accepted value. */
  function Rest(value: string): string
    requires SplitRoot(value).Ok?
  {
    SplitRoot(value).value.1
  }

  lemma DenotedNamesAreParts(value: string)
    requires Denote(value).Ok?
    ensures forall name :: name in Denote(value).value.names ==> name in Split(Rest(value))
  {
    ResolveKeepsParts([], Split(Rest(value)), !RootOf(value).Relative?);
  }

  lemma PrintedPartsAreNames(p: Path)
    requires p.Valid()
    ensures SplitRoot(p.Print()).Ok?
    ensures forall part :: part in Split(Rest(p.Print())) ==> part in p.names || part == "" || part == "."
    ensures ':' in Rest(p.Print()) ==> ':' in Join(p.names)
  {
    PrintSplits(p);
    if p.names == [] {
      SplitOfPlain("");
      SplitOfPlain(".");
    } else {
      NamesJoin(p.names, p.root.Windows());
      assert "./" + Join(p.names) == "." + "/" + Join(p.names);
      SplitAfterSlash(".", Join(p.names));
    }
  }

  /** Policies met by raw components are met by the surviving ones. */
  lemma PoliciesSurviveCleanup(value: string, opts: Options)
    requires Cleaned(value).Ok? && ValidateWindowsComponents(value, opts).Ok?
    ensures ValidateWindowsComponents(Cleaned(value).value, opts).Ok?
  {
    hide Denote, Path.Print, SplitRoot, Resolve, Split, Join, DeviceBase, IsReservedDeviceBase, Cleaned;
    CleanedPrintsDenoted(value);
    var p := Denote(value).value;
    DenotedSplits(value);
    DenotedNamesAreParts(value);
    PrintedPartsAreNames(p);
    if ':' in Rest(p.Print()) {
      CharInJoin(p.names, ':');
      CharInSplit(Rest(value), ':');
      var i :| 0 <= i < |p.names| && ':' in p.names[i];
      assert p.names[i] in p.names && p.names[i] in Split(Rest(value));
      var j :| 0 <= j < |Split(Rest(value))| && Split(Rest(value))[j] == p.names[i];
    }
    if i :| 0 <= i < |Split(Rest(p.Print()))| && IsReservedPart(Split(Rest(p.Print()))[i]) {
      var part := Split(Rest(p.Print()))[i];
      assert part in Split(Rest(value));
      var j :| 0 <= j < |Split(Rest(value))| && Split(Rest(value))[j] == part;
    }
  }

  lemma DenotedSplits(value: string)
    requires Denote(value).Ok?
    ensures SplitRoot(value).Ok?
  {
  }

  /** The common tail of every mode is idempotent under one set of options. */
  lemma FinishIsStable(value: string, opts: Options)
    requires Finish(value, opts).Ok?
    ensures var t := Finish(value, opts).value;
      && Cleaned(value) == Ok(t) && Cleaned(t) == Ok(t) && Finish(t, opts) == Ok(t)
      && t != "" && '\0' !in t
  {
    hide Cleaned, SplitRoot, ValidateWindowsComponents;
    var t := Finish(value, opts).value;
    CleaningIsIdempotent(value);
    PoliciesSurviveCleanup(value, opts);
    CleanedSplits(t);
  }

  lemma CleanedSplits(value: string)
    requires Cleaned(value).Ok?
    ensures value != "" && '\0' !in value && SplitRoot(value).Ok?
  {
  }

  /** A target profile judges the kind of the parsed root and nothing else. */
  lemma ProfileJudgesRoot(value: string)
    requires SplitRoot(value).Ok? && '\0' !in value
    ensures var root := RootOf(value);
      && ValidateTargetProfile(value, Portable).Ok?
      && (ValidateTargetProfile(value, PosixOnly).Ok? <==> root.Posix? || root.Relative?)
      && (ValidateTargetProfile(value, Win32Drive).Ok? <==> root.Drive? || root.ExtendedDrive? || root.Relative?)
  {
    hide SplitRootPrefix, RootOf;
    SplitRootShape(value);
    RootIsValid(value);
    var root := RootOf(value);
    match root
    case Unc(s, h) => assert root.Prefix()[2] == s[0] && (|s| > 1 ==> root.Prefix()[3] == s[1]);
    case ExtendedUnc(s, h) => assert root.Prefix()[4..][1] == 'N';
    case ExtendedDrive(d) => assert root.Prefix()[4..] == [d, ':', '/'];
    case _ =>
  }

  // ----- Native POSIX and canonical modes -----

  /** A prepared native path is POSIX or relative, and what it cleans to is prepared already. */
  lemma PreparedRoot(value: string)
    requires PrepareNativePOSIX(value).Ok? && Cleaned(PrepareNativePOSIX(value).value).Ok?
    ensures var prepared := PrepareNativePOSIX(value).value;
      SplitRoot(prepared).Ok? && (RootOf(prepared).Posix? || RootOf(prepared).Relative?)
      && ("/" <= value <==> RootOf(prepared).Posix?)
  {
    hide SplitUNCRoot, Split, Resolve;
    LeadingSlashesBound(value);
    var prepared := PrepareNativePOSIX(value).value;
    CleanedSplits(prepared);
    assert !("//" <= prepared) by {
      var leading := LeadingSlashes(value);
      if leading == 0 {
        assert prepared[0] != '/';
      } else if leading == 1 {
        assert prepared == value && (|value| > 1 ==> value[1] != '/');
      } else {
        assert prepared == "/" + value[leading..] && (|prepared| > 1 ==> prepared[1] == value[leading]);
      }
    }
  }

  lemma PrintIsPrepared(p: Path)
    requires p.Valid() && (p.root.Posix? || p.root.Relative?)
    ensures PrepareNativePOSIX(p.Print()) == Ok(p.Print())
  {
    if p.names != [] {
      NamesJoin(p.names, false);
    }
    var value := p.Print();
    LeadingSlashesBound(value);
    if p.root.Posix? {
      assert value[0] == '/' && (|value| > 1 ==> value[1] != '/');
      assert LeadingSlashes(value) == 1;
    }
  }

  lemma PosixModeIsIdempotent(raw: string, opts: Options, decodeUri: string -> Result<string>)
    requires opts.host.NativePosix? && Normalized(raw, opts, decodeUri).Ok?
    ensures var t := Normalized(raw, opts, decodeUri).value; Normalized(t, opts, decodeUri) == Ok(t)
  {
    hide PrepareNativePOSIX, NormalizeMountRoot, Finish, Denote, Path.Print, Cleaned;
    var value := PrepareNativePOSIX(raw).value;
    FinishIsStable(value, opts);
    CleanedPrintsDenoted(value);
    PreparedRoot(raw);
    DenotedRoot(value);
    PrintIsPrepared(Denote(value).value);
  }

  lemma DenotedRoot(value: string)
    requires Denote(value).Ok?
    ensures SplitRoot(value).Ok? && Denote(value).value.root == RootOf(value).Lower()
  {
  }

  lemma CanonicalModeIsIdempotent(raw: string, opts: Options, decodeUri: string -> Result<string>)
    requires opts.host.Canonical? && Normalized(raw, opts, decodeUri).Ok?
    ensures var t := Normalized(raw, opts, decodeUri).value; Normalized(t, opts, decodeUri) == Ok(t)
  {
    hide NormalizeMountRoot, Finish;
    FinishIsStable(raw, opts);
  }

  /** A native POSIX result may be stored and read back in canonical mode. */
  lemma PosixResultIsCanonical(raw: string, opts: Options, decodeUri: string -> Result<string>)
    requires opts.host.NativePosix? && Normalized(raw, opts, decodeUri).Ok?
    ensures var t := Normalized(raw, opts, decodeUri).value;
      Normalized(t, opts.(host := Canonical), decodeUri) == Ok(t)
  {
    hide NormalizeMountRoot, PrepareNativePOSIX;
    FinishIsStable(PrepareNativePOSIX(raw).value, opts);
  }
}
