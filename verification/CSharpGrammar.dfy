/** The C# port's parser, cleaner and in-place canonical check, against the reference grammar. */
module CSharpGrammar {
  import opened Text
  import opened Grammar
  import opened Identity
  import opened Normalize

  datatype Kind = RelativeKind | PosixKind | DriveKind | UncKind | ExtendedDriveKind | ExtendedUncKind

  datatype GrammarRoot = GrammarRoot(kind: Kind, prefix: string, rest: string) {
    predicate Windows() {
      !kind.RelativeKind? && !kind.PosixKind?
    }
  }

  function TrimStart(value: string): string {
    LeadingSlashesBound(value);
    value[LeadingSlashes(value)..]
  }

  function ParseUNCRoot(value: string, prefix: string, kind: Kind): Result<GrammarRoot> {
    var parts := Split(value);
    if |parts| < 2 || parts[0] == "" || parts[1] == "" || IsDots(parts[0]) || IsDots(parts[1]) then Err(InvalidPath)
    else Ok(GrammarRoot(kind, prefix + parts[0] + "/" + parts[1], Join(parts[2..])))
  }

  function ParseRoot(value: string): Result<GrammarRoot>
    requires value != ""
  {
    if "//?/" <= value then
      var tail := value[4..];
      if HasDriveRoot(tail) then Ok(GrammarRoot(ExtendedDriveKind, "//?/" + [ToLower(tail[0])] + ":/", tail[3..]))
      else if "UNC/" <= tail then ParseUNCRoot(tail[4..], "//?/UNC/", ExtendedUncKind)
      else Err(InvalidPath)
    else if HasDriveRoot(value) then Ok(GrammarRoot(DriveKind, [ToLower(value[0])] + ":/", value[3..]))
    else if IsDriveRelative(value) then Err(DriveRelativePath)
    else if "//" <= value then ParseUNCRoot(value[2..], "//", UncKind)
    else if value[0] == '/' then Ok(GrammarRoot(PosixKind, "/", value[1..]))
    else Ok(GrammarRoot(RelativeKind, "", value))
  }

  function ParseGrammar(value: string, nativePosix: bool): Result<GrammarRoot> {
    if value == "" then Err(EmptyPath)
    else if '\0' in value then Err(NulByte)
    else if nativePosix then
      if "//" <= value && !("///" <= value) then Err(InvalidPath)
      else if value[0] == '/' then Ok(GrammarRoot(PosixKind, "/", TrimStart(value)))
      else Ok(GrammarRoot(RelativeKind, "", value))
    else
      var parsed :- ParseRoot(value);
      if parsed.Windows() && '\\' in value then Err(InvalidPath) else Ok(parsed)
  }

  function Printed(parsed: GrammarRoot, parts: seq<string>): string {
    var joined := Join(parts);
    if parsed.prefix == "" then (if joined == "" then "." else MarkRelative(joined))
    else
      parsed.prefix
      + (if joined == "" || parsed.prefix[|parsed.prefix| - 1] == '/' then "" else "/")
      + joined
  }

  /** What the C# cleaner returns; `escapeCode` names its error for an escaping relative path. */
  function CleanedGrammar(value: string, nativePosix: bool, escapeCode: ErrorCode): Result<string> {
    var parsed :- ParseGrammar(value, nativePosix);
    match Resolve([], Split(parsed.rest), parsed.prefix != "")
    case None => Err(escapeCode)
    case Some(parts) => Ok(Printed(parsed, parts))
  }

  method CleanGrammar(value: string, nativePosix: bool, escapeCode: ErrorCode) returns (r: Result<string>)
    ensures r == CleanedGrammar(value, nativePosix, escapeCode)
  {
    var parsed :- ParseGrammar(value, nativePosix);
    var rest := Split(parsed.rest);
    var parts: seq<string> := [];
    for i := 0 to |rest|
      invariant Resolve([], rest, parsed.prefix != "") == Resolve(parts, rest[i..], parsed.prefix != "")
    {
      var part := rest[i];
      if |part| == 0 || part == "." {
        continue;
      }
      if part == ".." {
        if |parts| > 0 {
          parts := parts[..|parts| - 1];
        } else if |parsed.prefix| == 0 {
          return Err(escapeCode);
        }
      } else {
        parts := parts + [part];
      }
    }
    return Ok(Printed(parsed, parts));
  }

  // ----- Agreement with the reference grammar -----

  function KindOf(root: Root): Kind {
    match root
    case Relative => RelativeKind
    case Posix => PosixKind
    case Drive(_) => DriveKind
    case Unc(_, _) => UncKind
    case ExtendedDrive(_) => ExtendedDriveKind
    case ExtendedUnc(_, _) => ExtendedUncKind
  }

  /** Parsing finds the reference root, with its drive letter already in lower case, and the same rest. */
  lemma ParseGrammarIsSplitRoot(value: string)
    requires value != "" && '\0' !in value
    ensures ParseGrammar(value, false) ==
      if SplitRoot(value).Err? then Err(SplitRoot(value).code)
      else Ok(GrammarRoot(KindOf(RootOf(value)), RootOf(value).Lower().Prefix(), SplitRoot(value).value.1))
  {
    hide Split, Join, LeadingSlashes;
    if "//?/" <= value {
      if HasDriveRoot(value[4..]) {
        ExtendedDrivePrefix(value);
        assert value[..7] != "" && value[..7] != "/";
      } else if "UNC/" <= value[4..] {
        assert value[4..][4..] == value[8..];
      }
    } else if HasDriveRoot(value) {
      assert value[..3] != "" && value[..3] != "/";
    }
  }

  lemma PrintedIsReassembled(root: Root, parts: seq<string>, rest: string)
    ensures Printed(GrammarRoot(KindOf(root), root.Lower().Prefix(), rest), parts)
      == Reassemble(root.Lower().Prefix(), parts)
  {
    hide Root.Prefix, Join;
    var prefix, joined := root.Lower().Prefix(), Join(parts);
    assert prefix + "" + joined == prefix + joined;
  }

  /** In canonical grammar the C# cleaner and the reference cleaner are one function. */
  lemma CleanGrammarAgrees(value: string)
    ensures CleanedGrammar(value, false, InvalidPath) == Cleaned(value)
  {
    hide SplitRoot, Root.Prefix, Split, Resolve, Printed, Reassemble, ParseRoot, RootOf, LowercaseDrive;
    if value != "" && '\0' !in value {
      ParseGrammarIsSplitRoot(value);
      if SplitRoot(value).Ok? {
        var root, rest := RootOf(value), SplitRoot(value).value.1;
        SplitRootShape(value);
        RootIsValid(value);
        LowerPrefix(root);
        PrefixFacts(root.Lower());
        var names := Resolve([], Split(rest), !root.Relative?);
        if names.Some? {
          PrintedIsReassembled(root, names.value, rest);
        }
      }
    }
  }

  /** So are the native POSIX cleaners: trimming slashes and marking a drive-like first component lead to one result. */
  lemma NativeCleanersAgree(value: string)
    requires '\0' !in value
    ensures CleanedGrammar(value, true, InvalidPath) == CleanNativePOSIX(value)
  {
    hide Split, Resolve, Join, LeadingSlashes;
    LeadingSlashesBound(value);
    if value != "" {
      NativeLeading(value);
      if LeadingSlashes(value) != 2 {
        var tail := TrimStart(value);
        if value[0] == '/' {
          var prepared := PrepareNativePOSIX(value).value;
          assert prepared == "/" + tail && prepared[1..] == tail;
          assert !("//" <= prepared) by { assert |tail| > 0 ==> prepared[1] == tail[0] != '/'; }
          assert '\0' !in prepared;
          NativeRooted(tail);
        } else {
          NativeRelative(value);
        }
      }
    }
  }

  lemma NativeLeading(value: string)
    requires value != ""
    ensures LeadingSlashes(value) == 2 <==> "//" <= value && !("///" <= value)
    ensures LeadingSlashes(value) >= 1 <==> value[0] == '/'
    ensures LeadingSlashes(value) == 1 ==> value == "/" + TrimStart(value)
  {
    LeadingSlashesBound(value);
    if "/" <= value && "/" <= value[1..] && "/" <= value[1..][1..] {
      assert value[0] == '/' && value[1] == '/' && value[2] == '/';
    }
  }

  lemma NativeRooted(tail: string)
    requires '\0' !in tail && !("/" <= tail)
    ensures Cleaned("/" + tail) ==
      match Resolve([], Split(tail), true)
      case None => Err(InvalidPath)
      case Some(parts) => Ok(Printed(GrammarRoot(PosixKind, "/", tail), parts))
  {
    hide Split, Resolve, Join;
    RootReadsBack(Posix, "", tail);
    assert "/" + "" + tail == "/" + tail;
  }

  lemma NativeRelative(value: string)
    requires value != "" && value[0] != '/' && '\0' !in value
    ensures Cleaned(MarkRelative(value)) ==
      match Resolve([], Split(value), false)
      case None => Err(InvalidPath)
      case Some(parts) => Ok(Printed(GrammarRoot(RelativeKind, "", value), parts))
  {
    hide Split, Join;
    if NeedsRelativeMarker(value) {
      assert "./" + value == "." + "/" + value;
      SplitAfterSlash(".", value);
      assert (["."] + Split(value))[1..] == Split(value);
    }
  }

  // ----- The in-place check -----

  ghost predicate AllNames(parts: seq<string>) {
    forall i :: 0 <= i < |parts| ==> parts[i] != "" && !IsDots(parts[i])
  }

  /** The separator that belongs between a prefix and a rest. */
  function SeparatorLength(parsed: GrammarRoot): nat {
    if |parsed.prefix| > 0 && |parsed.rest| > 0 && parsed.prefix[|parsed.prefix| - 1] != '/' then 1 else 0
  }

  /** The part of a relative text that the scan reads: after a drive marker, if there is one. */
  function ScanStart(value: string): Option<nat> {
    if !("./" <= value) then Some(0)
    else if |value| < 4 || !IsLetter(value[2]) || value[3] != ':' then None
    else Some(2)
  }

  /** What the scan decides, as a statement about components. */
  ghost predicate InPlaceCanonical(value: string, parsed: GrammarRoot) {
    && |value| == |parsed.prefix| + SeparatorLength(parsed) + |parsed.rest|
    && if parsed.rest == "" || (parsed.kind.RelativeKind? && value == ".") then true
       else if parsed.kind.RelativeKind? then
         ScanStart(value).Some? && ScanStart(value).value <= |parsed.rest|
         && AllNames(Split(parsed.rest[ScanStart(value).value..]))
       else AllNames(Split(parsed.rest))
  }

  /** What parsing a printed path returns. */
  lemma ParseOfPrint(p: Path)
    requires p.Valid()
    ensures ParseGrammar(p.Print(), false) == Ok(GrammarRoot(KindOf(p.root), p.root.Lower().Prefix(),
      if p.root.Relative? then p.Print() else Join(p.names)))
  {
    hide ParseGrammar, SplitRoot, RootOf, Path.Print, Root.Prefix;
    PrintSplits(p);
    PrintHasNoNul(p);
    ParseGrammarIsSplitRoot(p.Print());
  }

  lemma SeparatorOfPrint(p: Path)
    requires p.Valid() && !p.root.Relative?
    ensures SeparatorLength(GrammarRoot(KindOf(p.root), p.root.Lower().Prefix(), Join(p.names))) == |p.Separator()|
  {
    hide Root.Prefix, Split;
    LowerPrefix(p.root);
    PrefixFacts(p.root.Lower());
    if p.names != [] {
      NamesJoin(p.names, p.root.Windows());
    }
  }

  /** A printed path passes the in-place check. */
  lemma PrintPassesCheck(p: Path)
    requires p.Valid()
    ensures ParseGrammar(p.Print(), false).Ok?
    ensures InPlaceCanonical(p.Print(), ParseGrammar(p.Print(), false).value)
  {
    hide ParseGrammar, Root.Prefix, Split, Join;
    ParseOfPrint(p);
    LowerLength(p.root);
    JoinOfNothing();
    if p.names != [] {
      NamesJoin(p.names, p.root.Windows());
      if p.root.Relative? {
        RelativeScan(p);
      }
    }
    if p.root.Relative? {
      PrefixFacts(p.root);
      PrefixFacts(p.root.Lower());
    } else {
      SeparatorOfPrint(p);
    }
  }

  lemma RelativeScan(p: Path)
    requires p.Valid() && p.root.Relative? && p.names != []
    ensures ScanStart(p.Print()).Some? && ScanStart(p.Print()).value <= |p.Print()|
    ensures p.Print()[ScanStart(p.Print()).value..] == Join(p.names)
  {
    NamesJoin(p.names, false);
  }

  /** A text that passes the in-place check is a printed path with the root that was parsed. */
  lemma CheckedIsPrinted(value: string)
    requires ParseGrammar(value, false).Ok? && InPlaceCanonical(value, ParseGrammar(value, false).value)
    ensures SplitRoot(value).Ok? && exists p: Path :: p.Valid() && p.root == RootOf(value) && p.Print() == value
  {
    hide SplitRoot, RootOf, Root.Prefix, Split, ParseRoot;
    ParseGrammarIsSplitRoot(value);
    SplitRootShape(value);
    RootIsValid(value);
    var root, rest := RootOf(value), SplitRoot(value).value.1;
    RestIsClean(value);
    if root.Relative? {
      RelativeTextUnmarked(value);
      CheckedRelative(value);
    } else {
      CheckedRooted(value, root, rest);
    }
  }

  lemma CheckedRooted(value: string, root: Root, rest: string)
    requires root.Valid() && !root.Relative? && Clean(Split(rest), root.Windows())
    requires value == root.Prefix() + rest || value == root.Prefix() + "/" + rest
    requires InPlaceCanonical(value, GrammarRoot(KindOf(root), root.Lower().Prefix(), rest))
    ensures exists p: Path :: p.Valid() && p.root == root && p.Print() == value
  {
    hide Root.Prefix, Split, Join;
    var names := if rest == "" then [] else Split(rest);
    var p := Path(root, names);
    JoinOfSplit(rest);
    JoinOfNothing();
    LowerLength(root);
    SeparatorOfPrint(p);
    assert value == root.Prefix() + p.Separator() + rest;
    assert p.Valid() && p.Print() == value;
  }

  lemma CheckedRelative(value: string)
    requires value != "" && '\0' !in value && !NeedsRelativeMarker(value)
    requires InPlaceCanonical(value, GrammarRoot(RelativeKind, "", value))
    ensures exists p: Path :: p.Valid() && p.root == Root.Relative && p.Print() == value
  {
    if value == "." {
      assert Path(Root.Relative, []).Print() == value;
    } else {
      hide Split, Join;
      var start := ScanStart(value).value;
      var names := Split(value[start..]);
      JoinOfSplit(value[start..]);
      assert forall c :: c in value[start..] ==> c in value;
      PartsAreClean(value[start..], false);
      MarkedTail(value);
      var p := Path(Root.Relative, names);
      assert names != [];
      assert p.Valid() && p.Print() == value;
    }
  }

  lemma MarkedTail(value: string)
    requires !NeedsRelativeMarker(value) && ScanStart(value).Some? && ScanStart(value).value <= |value|
    ensures MarkRelative(value[ScanStart(value).value..]) == value
  {
    if "./" <= value {
      assert value == "./" + value[2..];
    }
  }

  lemma RelativeTextUnmarked(value: string)
    requires SplitRoot(value).Ok? && RootOf(value).Relative?
    ensures !NeedsRelativeMarker(value) && SplitRoot(value).value.1 == value
  {
  }

  /** The in-place check decides strict parsing, and with an exact prefix it decides canonical identity. */
  lemma CheckMeansCanonical(value: string)
    ensures ParseGrammar(value, false).Err? ==> Cleaned(value).Err? && ParseCleanCanonical(value).Err?
    ensures ParseGrammar(value, false).Ok? ==>
      && (ParseCleanCanonical(value).Ok? <==> InPlaceCanonical(value, ParseGrammar(value, false).value))
      && (Cleaned(value) == Ok(value) <==>
            InPlaceCanonical(value, ParseGrammar(value, false).value) && ParseGrammar(value, false).value.prefix <= value)
  {
    hide InPlaceCanonical, ParseGrammar, Path.Print, Root.Prefix, Cleaned, SplitRoot;
    CleanGrammarAgrees(value);
    if Cleaned(value) == Ok(value) {
      CleanedPrintsDenoted(value);
      ParsedOfPrint(Denote(value).value);
    }
    if ParseCleanCanonical(value).Ok? {
      ParsedIsPrinted(value);
      PrintPassesCheck(PathOf(value));
      PrefixDecidesCase(PathOf(value));
    }
    if ParseGrammar(value, false).Ok? && InPlaceCanonical(value, ParseGrammar(value, false).value) {
      CheckedIsPrinted(value);
      var p: Path :| p.Valid() && p.root == RootOf(value) && p.Print() == value;
      ParsedOfPrint(p);
    }
  }

  /** The lower-case prefix starts a printed path exactly when the path is its own cleaned form. */
  lemma PrefixDecidesCase(p: Path)
    requires p.Valid()
    ensures ParseGrammar(p.Print(), false).Ok?
    ensures ParseGrammar(p.Print(), false).value.prefix <= p.Print() <==> Cleaned(p.Print()) == Ok(p.Print())
  {
    hide ParseGrammar, Cleaned, Root.Prefix, Root.Valid, Root.Lower;
    ParseOfPrint(p);
    CleanedOfPrint(p);
    LowerLength(p.root);
    PrintStartsWithPrefix(p);
    LowerIsValid(p);
    var lower := p.root.Lower().Prefix();
    assert lower <= p.Print() <==> lower == p.root.Prefix();
    if p.Lower().Print() == p.Print() {
      PrintIsInjective(p.Lower(), p);
    }
  }

  lemma PrintStartsWithPrefix(p: Path)
    requires p.Valid()
    ensures p.root.Prefix() <= p.Print()
  {
    hide Root.Prefix, Root.Valid;
    PrefixFacts(p.root);
  }

  lemma LowerIsValid(p: Path)
    requires p.Valid()
    ensures p.Lower().Valid()
  {
  }

  lemma RelativeRestIsValue(value: string)
    requires ParseGrammar(value, false).Ok? && ParseGrammar(value, false).value.kind.RelativeKind?
    ensures ParseGrammar(value, false).value.rest == value
  {
    hide Split, Join;
  }

  lemma PrefixStartsValue(value: string)
    requires ParseGrammar(value, false).Ok?
    requires !ParseGrammar(value, false).value.kind.DriveKind? && !ParseGrammar(value, false).value.kind.ExtendedDriveKind?
    ensures ParseGrammar(value, false).value.prefix <= value
  {
    hide SplitRoot, RootOf, Root.Prefix, ParseRoot;
    ParseGrammarIsSplitRoot(value);
    SplitRootShape(value);
  }

  /** Validates components in place, with indices only. */
  method RequireCanonical(value: string, allowDriveCase: bool) returns (r: Result<GrammarRoot>)
    ensures allowDriveCase ==> (r.Ok? <==> ParseCleanCanonical(value).Ok?)
    ensures !allowDriveCase ==> (r.Ok? <==> Cleaned(value) == Ok(value))
    ensures r.Ok? ==> r == ParseGrammar(value, false)
    ensures r.Err? ==> r.code == if ParseGrammar(value, false).Err? then ParseGrammar(value, false).code else InvalidPath
  {
    hide Cleaned, ParseCleanCanonical, ParseGrammar, Split, IsDots, AllNames;
    CheckMeansCanonical(value);
    var parsed :- ParseGrammar(value, false);
    if parsed.kind.RelativeKind? {
      RelativeRestIsValue(value);
    }
    if !parsed.kind.DriveKind? && !parsed.kind.ExtendedDriveKind? {
      PrefixStartsValue(value);
    }
    ghost var accepted := InPlaceCanonical(value, parsed) && (allowDriveCase || parsed.prefix <= value);
    var driveCase := allowDriveCase && (parsed.kind.DriveKind? || parsed.kind.ExtendedDriveKind?);
    var separatorLength := SeparatorLength(parsed);
    if (!driveCase && !(parsed.prefix <= value)) || |value| != |parsed.prefix| + separatorLength + |parsed.rest| {
      return Err(InvalidPath);
    }
    if |parsed.rest| == 0 || (parsed.kind.RelativeKind? && value == ".") {
      return Ok(parsed);
    }
    var rest := parsed.rest;
    var start := 0;
    if parsed.kind.RelativeKind? && "./" <= value {
      if |value| < 4 || !IsLetter(value[2]) || value[3] != ':' {
        return Err(InvalidPath);
      }
      start := 2;
    }
    var clean := ScanComponents(rest, start);
    if !clean {
      return Err(InvalidPath);
    }
    return Ok(parsed);
  }

  /** The index loop of the check: no part of the text from `first` on is empty or a dot part. */
  method ScanComponents(rest: string, first: nat) returns (ok: bool)
    requires first <= |rest|
    ensures ok <==> AllNames(Split(rest[first..]))
  {
    hide Split, IsDots, AllNames;
    ghost var all := AllNames(Split(rest[first..]));
    var start := first;
    for index := first to |rest| + 1
      invariant start <= index
      invariant start <= |rest| ==> index <= |rest| && '/' !in rest[start..index]
      invariant if start <= |rest| then all == AllNames(Split(rest[start..])) else all
    {
      if index < |rest| && rest[index] != '/' {
        continue;
      }
      var length := index - start;
      ScanStep(rest, start, index);
      if length == 0 || (rest[start] == '.' && (length == 1 || (length == 2 && rest[start + 1] == '.'))) {
        return false;
      }
      start := index + 1;
    }
    return true;
  }

  /** One component of the scan: it is a name, and so are the rest, exactly when all of them are. */
  lemma ScanStep(rest: string, start: nat, index: nat)
    requires start <= index <= |rest| && '/' !in rest[start..index]
    requires index < |rest| ==> rest[index] == '/'
    ensures var length := index - start;
      var bad := length == 0 || (rest[start] == '.' && (length == 1 || (length == 2 && rest[start + 1] == '.')));
      AllNames(Split(rest[start..])) <==> !bad && (index == |rest| || AllNames(Split(rest[index + 1..])))
  {
    hide Split;
    var part := rest[start..index];
    PartTest(part);
    if index == |rest| {
      assert rest[start..] == part;
      SplitOfPlain(part);
      AllNamesAfterFirst(part, []);
    } else {
      assert rest[start..] == part + "/" + rest[index + 1..];
      SplitAfterSlash(part, rest[index + 1..]);
      AllNamesAfterFirst(part, Split(rest[index + 1..]));
    }
  }

  lemma PartTest(part: string)
    ensures part == "" || IsDots(part) <==>
      |part| == 0 || (part[0] == '.' && (|part| == 1 || (|part| == 2 && part[1] == '.')))
  {
  }

  lemma AllNamesAfterFirst(part: string, more: seq<string>)
    ensures AllNames([part] + more) <==> part != "" && !IsDots(part) && AllNames(more)
    ensures more == [] ==> [part] + more == [part] && AllNames(more)
  {
    assert ([part] + more)[0] == part;
    assert forall i :: 0 <= i < |more| ==> ([part] + more)[i + 1] == more[i];
  }
}
