/** Which scoped paths and glob patterns the workflow tools admit. */
module ScopedPaths {
  import opened Text
  import opened Basics
  import opened ScopedGlob

  const COLON: CodeUnit := ':' as int
  const BACKSLASH: CodeUnit := '\\' as int
  const DOT: CodeUnit := '.' as int
  const SPACE: CodeUnit := ' ' as int

  datatype Scope = Knowledge | Artifact

  /**
   * The units of a literal of the code. All of these are ASCII, where a character is its own unit; the remainder only
   * keeps the function total.
   */
  function ToUnits(s: string): (r: Units)
    ensures |r| == |s|
  {
    seq(|s|, i requires 0 <= i < |s| => (s[i] as int) % 0x10000)
  }

  function ScopeName(scope: Scope): Units {
    match scope
    case Knowledge => ToUnits("knowledge")
    case Artifact => ToUnits("artifact")
  }

  /** The pieces of `s` between occurrences of `separator`. */
  function SplitAt(s: Units, separator: CodeUnit): (parts: seq<Units>)
    ensures |parts| >= 1
  {
    if s == [] then [[]]
    else
      var tail := SplitAt(s[1..], separator);
      if s[0] == separator then [[]] + tail else [[s[0]] + tail[0]] + tail[1..]
  }

  lemma {:induction false} SplitAtPiece(a: Units, b: Units, separator: CodeUnit)
    requires separator !in a
    ensures SplitAt(a, separator) == [a]
    ensures SplitAt(a + [separator] + b, separator) == [a] + SplitAt(b, separator)
  {
    var s := a + [separator] + b;
    if a == [] {
      assert s[0] == separator && s[1..] == b;
    } else {
      SplitAtPiece(a[1..], b, separator);
      assert [a[0]] + a[1..] == a && s[0] == a[0] && s[1..] == a[1..] + [separator] + b;
      assert SplitAt(s, separator)[1..] == SplitAt(b, separator);
    }
  }

  /** The first piece has no separator, and the rest of the text splits into the other pieces. */
  lemma {:induction false} FirstPiece(s: Units, separator: CodeUnit) returns (rest: Units)
    ensures var parts := SplitAt(s, separator);
      && separator !in parts[0]
      && (|parts| == 1 ==> s == parts[0])
      && (|parts| > 1 ==> s == parts[0] + [separator] + rest && SplitAt(rest, separator) == parts[1..])
  {
    rest := [];
    if s != [] {
      var tail := SplitAt(s[1..], separator);
      if s[0] == separator {
        rest := s[1..];
      } else {
        rest := FirstPiece(s[1..], separator);
        assert s == [s[0]] + s[1..];
        if |tail| > 1 {
          assert s == [s[0]] + tail[0] + [separator] + rest;
        }
      }
    }
  }

  function Fold(c: CodeUnit): CodeUnit {
    if 'A' as int <= c <= 'Z' as int then c + 32 else c
  }

  predicate FoldedPrefix(s: Units, text: string) {
    |text| <= |s| && forall i :: 0 <= i < |text| ==> Fold(s[i]) == ToUnits(text)[i]
  }

  predicate HasEncodedSeparator(raw: Units) {
    exists i :: 0 <= i <= |raw| && FoldedPercent(raw[i..])
  }

  predicate FoldedPercent(s: Units) {
    FoldedPrefix(s, "%2f") || FoldedPrefix(s, "%5c") || FoldedPrefix(s, "%252f") || FoldedPrefix(s, "%255c")
  }

  predicate StartsWithDrive(raw: Units) {
    |raw| >= 2 && ('a' as int <= Fold(raw[0]) <= 'z' as int) && raw[1] == COLON
  }

  predicate IsSeparator(c: CodeUnit) {
    c == SLASH || c == BACKSLASH
  }

  /** The checks that paths and globs share, in the order the code makes them. */
  function ValidateScopedText(raw: Units): Result<()> {
    if NUL in raw then Err(NulByte)
    else if FoldedPrefix(raw, "file://") then Err(InvalidPath)
    else if HasEncodedSeparator(raw) then Err(InvalidPath)
    else if (|raw| >= 1 && raw[0] == SLASH) || (|raw| >= 2 && raw[0] == BACKSLASH && raw[1] == BACKSLASH)
            || (StartsWithDrive(raw) && |raw| >= 3 && IsSeparator(raw[2])) then Err(AbsolutePath)
    else if StartsWithDrive(raw) && (|raw| == 2 || !IsSeparator(raw[2])) then Err(DriveRelativePath)
    else if BACKSLASH in raw then Err(InvalidPath)
    else if [DOT, DOT] in SplitAt(raw, SLASH) then Err(OutsideRoot)
    else Ok(())
  }

  predicate BadComponent(part: Units) {
    part == [] || part == [DOT] || COLON in part
  }

  predicate EndsBadly(part: Units) {
    part != [] && (part[|part| - 1] == DOT || part[|part| - 1] == SPACE)
  }

  function ValidateScopedRelative(raw: Units): Result<()> {
    if raw == [] then Err(EmptyPath)
    else
      var _ :- ValidateScopedText(raw);
      var parts := SplitAt(raw, SLASH);
      if exists i :: 0 <= i < |parts| && (BadComponent(parts[i]) || EndsBadly(parts[i])) then Err(InvalidPath)
      else if |raw| > 4096 || exists i :: 0 <= i < |parts| && |parts[i]| > 255 then Err(InvalidPath)
      else Ok(())
  }

  function ValidateScopedGlob(raw: Units): Result<()> {
    if raw == [] then Err(EmptyPath)
    else if |raw| > 512 then Err(InvalidPath)
    else if STAR !in raw && QUESTION !in raw then Err(InvalidPath)
    else
      var _ :- ValidateScopedText(raw);
      var parts := SplitAt(raw, SLASH);
      if exists i :: 0 <= i < |parts| && (BadComponent(parts[i]) || EndsBadly(parts[i]) || |parts[i]| > 255) then
        Err(InvalidPath)
      else Ok(())
  }

  /** The path itself or one of its ancestors, by whole components. */
  predicate IsUnderPrefix(path: Units, prefix: Units) {
    path == prefix || prefix + [SLASH] <= path
  }

  predicate StartsWithAny(value: Units, roots: seq<string>) {
    exists i :: 0 <= i < |roots| && IsUnderPrefix(value, ToUnits(roots[i]))
  }

  const RESERVED_ROOTS: seq<string> := [
    "Assets", "AssetsEvil", "Packages", "PackagesEvil", "ProjectSettings", "Library", "Temp", "UnityMcpKnowledge",
    "UnityMcpKnowledgeEvil", "UnityMcpArtifacts", "UnityMcpGatewayCache", "UnityMcpTempSession"]

  const ARTIFACT_ROOTS: seq<string> := ["job-artifacts", "screenshots"]

  /** The project-relative path of a workflow path. */
  function NormalizeScopedPath(scope: Scope, raw: Units): Result<Units> {
    var _ :- ValidateScopedRelative(raw);
    match scope
    case Knowledge =>
      if StartsWithAny(raw, RESERVED_ROOTS) then Err(OutsideRoot)
      else Ok(ToUnits("Assets/UnityMcpKnowledge/") + raw)
    case Artifact =>
      if !StartsWithAny(raw, ARTIFACT_ROOTS) then Err(OutsideRoot)
      else Ok(ToUnits("Library/SGGUnityMcp/") + raw)
  }

  /** The first component up to its first wildcard that no line terminator follows. */
  function LiteralPrefix(component: Units): Units {
    if component == [] then []
    else if (component[0] == STAR || component[0] == QUESTION)
            && forall i :: 1 <= i < |component| ==> !IsLineTerminator(component[i]) then []
    else [component[0]] + LiteralPrefix(component[1..])
  }

  function NormalizeScopedGlob(scope: Scope, raw: Units): Result<Units> {
    var _ :- ValidateScopedGlob(raw);
    match scope
    case Artifact => if !StartsWithAny(raw, ARTIFACT_ROOTS) then Err(OutsideRoot) else Ok(raw)
    case Knowledge =>
      if StartsWithAny(LiteralPrefix(SplitAt(raw, SLASH)[0]), RESERVED_ROOTS) then Err(OutsideRoot) else Ok(raw)
  }

  lemma AdmittedHasNoNul(scope: Scope, raw: Units)
    requires NormalizeScopedPath(scope, raw).Ok?
    ensures NUL !in raw
  {
  }

  /** An admitted path cannot climb, be rooted, name a drive or stream, or hide an empty component. */
  lemma AdmittedIsConfined(scope: Scope, raw: Units)
    requires NormalizeScopedPath(scope, raw).Ok?
    ensures BACKSLASH !in raw && COLON !in raw && raw != [] && raw[0] != SLASH && |raw| <= 4096
    ensures forall part :: part in SplitAt(raw, SLASH) ==> part != [] && part != [DOT] && part != [DOT, DOT]
  {
    hide ValidateScopedRelative, StartsWithAny, ToUnits, SplitAt;
    RelativeFacts(raw);
    if COLON in raw {
      UnitInPiece(raw, SLASH, COLON);
    }
  }

  lemma RelativeFacts(raw: Units)
    requires ValidateScopedRelative(raw).Ok?
    ensures raw != [] && |raw| <= 4096 && BACKSLASH !in raw && raw[0] != SLASH
    ensures forall i :: 0 <= i < |SplitAt(raw, SLASH)| ==> !BadComponent(SplitAt(raw, SLASH)[i])
    ensures [DOT, DOT] !in SplitAt(raw, SLASH)
  {
    hide SplitAt, ValidateScopedText, BadComponent, EndsBadly;
    TextFacts(raw);
  }

  lemma TextFacts(raw: Units)
    requires ValidateScopedText(raw).Ok?
    ensures BACKSLASH !in raw && (raw != [] ==> raw[0] != SLASH) && [DOT, DOT] !in SplitAt(raw, SLASH)
  {
    hide SplitAt, FoldedPrefix, HasEncodedSeparator, StartsWithDrive;
  }

  lemma {:induction false} UnitInPiece(s: Units, separator: CodeUnit, c: CodeUnit)
    requires c in s && c != separator
    ensures exists i :: 0 <= i < |SplitAt(s, separator)| && c in SplitAt(s, separator)[i]
  {
    var parts, tail := SplitAt(s, separator), SplitAt(s[1..], separator);
    if s[0] == c {
      assert c in parts[0];
    } else {
      UnitInPiece(s[1..], separator, c);
      var i :| 0 <= i < |tail| && c in tail[i];
      assert if s[0] == separator then c in parts[i + 1] else c in parts[i];
    }
  }

  /** Scopes never share a project path, and within one each admitted path has its own. */
  lemma ProjectPathsAreInjective(s: Scope, x: Units, t: Scope, y: Units)
    requires NormalizeScopedPath(s, x).Ok? && NormalizeScopedPath(s, x) == NormalizeScopedPath(t, y)
    ensures s == t && x == y
  {
    hide ValidateScopedRelative, StartsWithAny;
    var root := ToUnits(if s.Knowledge? then "Assets/UnityMcpKnowledge/" else "Library/SGGUnityMcp/");
    var path := NormalizeScopedPath(s, x).value;
    assert path[0] == if s.Knowledge? then 'A' as int else 'L' as int;
    assert x == path[|root|..];
    if s == t {
      assert y == path[|root|..];
    }
  }

  // ----- What the checks admit, by units and components -----

  lemma {:induction false} SplitAtAppend(a: Units, b: Units, separator: CodeUnit)
    ensures SplitAt(a + [separator] + b, separator) == SplitAt(a, separator) + SplitAt(b, separator)
  {
    var s := a + [separator] + b;
    if a == [] {
      assert s[0] == separator && s[1..] == b;
    } else {
      SplitAtAppend(a[1..], b, separator);
      assert s[0] == a[0] && s[1..] == a[1..] + [separator] + b;
    }
  }

  /** A path is under a prefix exactly when the prefix's components are its first ones. */
  lemma {:induction false} UnderByComponents(path: Units, prefix: Units)
    ensures IsUnderPrefix(path, prefix) <==> SplitAt(prefix, SLASH) <= SplitAt(path, SLASH)
    decreases |prefix|
  {
    hide SplitAt;
    var ps, qs := SplitAt(prefix, SLASH), SplitAt(path, SLASH);
    if prefix + [SLASH] <= path {
      var rest := path[|prefix| + 1..];
      assert path == prefix + [SLASH] + rest;
      SplitAtAppend(prefix, rest, SLASH);
    }
    if ps <= qs {
      var restP := FirstPiece(prefix, SLASH);
      var restQ := FirstPiece(path, SLASH);
      assert ps[0] == qs[0];
      if |ps| == 1 {
        if |qs| > 1 {
          assert path[..|prefix| + 1] == prefix + [SLASH];
        }
      } else {
        assert qs[1..][..|ps| - 1] == ps[1..];
        UnderByComponents(restQ, restP);
        if restQ != restP {
          UnderBehind(ps[0], restP, restQ);
        }
      }
    }
  }

  lemma UnderBehind(first: Units, prefix: Units, path: Units)
    requires prefix + [SLASH] <= path
    ensures first + [SLASH] + prefix + [SLASH] <= first + [SLASH] + path
  {
    assert path == prefix + [SLASH] + path[|prefix| + 1..];
    assert first + [SLASH] + path == first + [SLASH] + prefix + [SLASH] + path[|prefix| + 1..];
  }

  /** Some percent sign starts an encoded slash or backslash, encoded once or twice, in either case. */
  ghost predicate HasEncoded(raw: Units) {
    exists i :: 0 <= i < |raw| && EncodedAt(raw, i)
  }

  predicate EncodedAt(raw: Units, i: nat)
    requires i < |raw|
  {
    raw[i] == 0x25 && (EndsEncoded(raw, i + 1) || (i + 2 < |raw| && raw[i + 1] == 0x32 && raw[i + 2] == 0x35 && EndsEncoded(raw, i + 3)))
  }

  /** `2f` or `5c` in either case. */
  predicate EndsEncoded(raw: Units, i: nat) {
    && i + 1 < |raw|
    && ((raw[i] == 0x32 && (raw[i + 1] == 0x66 || raw[i + 1] == 0x46)) || (raw[i] == 0x35 && (raw[i + 1] == 0x63 || raw[i + 1] == 0x43)))
  }

  lemma EncodedExactly(raw: Units)
    ensures HasEncodedSeparator(raw) <==> HasEncoded(raw)
  {
    forall i | 0 <= i <= |raw| ensures FoldedPercent(raw[i..]) <==> i < |raw| && EncodedAt(raw, i) {
      PercentAt(raw, i);
    }
  }

  lemma PercentAt(raw: Units, i: nat)
    requires i <= |raw|
    ensures FoldedPercent(raw[i..]) <==> i < |raw| && EncodedAt(raw, i)
  {
    hide FoldedPrefix;
    var s := raw[i..];
    FoldedSlash(s);
    FoldedBackslash(s);
    FoldedTwiceSlash(s);
    FoldedTwiceBackslash(s);
    assert forall k :: 0 <= k < |s| ==> s[k] == raw[i + k];
  }

  lemma FoldedSlash(s: Units)
    ensures FoldedPrefix(s, "%2f") <==> |s| >= 3 && s[0] == 0x25 && s[1] == 0x32 && (s[2] == 0x66 || s[2] == 0x46)
  {
    hide Fold;
    FoldUnit('%');
    FoldUnit('2');
    FoldUnit('f');
    assert ToUnits("%2f") == [0x25, 0x32, 0x66];
  }

  lemma FoldedBackslash(s: Units)
    ensures FoldedPrefix(s, "%5c") <==> |s| >= 3 && s[0] == 0x25 && s[1] == 0x35 && (s[2] == 0x63 || s[2] == 0x43)
  {
    hide Fold;
    FoldUnit('%');
    FoldUnit('5');
    FoldUnit('c');
    assert ToUnits("%5c") == [0x25, 0x35, 0x63];
  }

  lemma FoldedTwiceSlash(s: Units)
    ensures FoldedPrefix(s, "%252f") <==>
      |s| >= 5 && s[0] == 0x25 && s[1] == 0x32 && s[2] == 0x35 && s[3] == 0x32 && (s[4] == 0x66 || s[4] == 0x46)
  {
    hide Fold;
    FoldUnit('%');
    FoldUnit('2');
    FoldUnit('5');
    FoldUnit('f');
    assert ToUnits("%252f") == [0x25, 0x32, 0x35, 0x32, 0x66];
  }

  lemma FoldedTwiceBackslash(s: Units)
    ensures FoldedPrefix(s, "%255c") <==>
      |s| >= 5 && s[0] == 0x25 && s[1] == 0x32 && s[2] == 0x35 && s[3] == 0x35 && (s[4] == 0x63 || s[4] == 0x43)
  {
    hide Fold;
    FoldUnit('%');
    FoldUnit('2');
    FoldUnit('5');
    FoldUnit('c');
    assert ToUnits("%255c") == [0x25, 0x32, 0x35, 0x35, 0x63];
  }

  lemma FoldUnit(c: char)
    requires c == '%' || '0' <= c <= '9' || 'a' <= c <= 'z'
    ensures forall u: CodeUnit :: Fold(u) == c as int <==> u == c as int || ('a' <= c <= 'z' && u == c as int - 32)
  {
  }

  /** Every component is nonempty, short, and ends in neither a dot nor a space. */
  ghost predicate PlainComponents(raw: Units) {
    forall i :: 0 <= i < |SplitAt(raw, SLASH)| ==> PlainComponent(SplitAt(raw, SLASH)[i])
  }

  predicate PlainComponent(part: Units) {
    1 <= |part| <= 255 && part[|part| - 1] != 0x2E && part[|part| - 1] != 0x20
  }

  ghost predicate PlainText(raw: Units) {
    && (forall i :: 0 <= i < |raw| ==> raw[i] != 0 && raw[i] != 0x5C && raw[i] != 0x3A)
    && !HasEncoded(raw) && PlainComponents(raw)
  }

  /** The many checks on a path come down to its units, its components and its length. */
  lemma RelativeExactly(raw: Units)
    ensures ValidateScopedRelative(raw).Ok? <==> PlainText(raw) && |raw| <= 4096
    ensures ValidateScopedGlob(raw).Ok? <==> PlainText(raw) && |raw| <= 512 && (0x2A in raw || 0x3F in raw)
  {
    hide SplitAt, ValidateScopedText, ValidateScopedRelative, ValidateScopedGlob, GoodComponents, PlainComponent, HasEncoded;
    SharedExactly(raw);
    NothingIsNotPlain();
    RelativeByChecks(raw);
    GlobByChecks(raw);
  }

  lemma RelativeByChecks(raw: Units)
    ensures ValidateScopedRelative(raw).Ok? <==>
      raw != [] && ValidateScopedText(raw).Ok? && GoodComponents(raw) && |raw| <= 4096
  {
    hide SplitAt, ValidateScopedText, BadComponent, EndsBadly;
  }

  lemma GlobByChecks(raw: Units)
    ensures ValidateScopedGlob(raw).Ok? <==>
      raw != [] && ValidateScopedText(raw).Ok? && GoodComponents(raw) && |raw| <= 512 && (STAR in raw || QUESTION in raw)
  {
    hide SplitAt, ValidateScopedText, BadComponent, EndsBadly;
  }

  lemma NothingIsNotPlain()
    ensures !PlainComponents([]) && !PlainText([])
  {
    assert SplitAt([], SLASH)[0] == [];
  }

  ghost predicate GoodComponents(raw: Units) {
    forall i :: 0 <= i < |SplitAt(raw, SLASH)| ==>
      !BadComponent(SplitAt(raw, SLASH)[i]) && !EndsBadly(SplitAt(raw, SLASH)[i]) && |SplitAt(raw, SLASH)[i]| <= 255
  }

  lemma ComponentsExactly(raw: Units)
    ensures GoodComponents(raw) <==> PlainComponents(raw) && COLON !in raw
  {
    hide SplitAt;
    var parts := SplitAt(raw, SLASH);
    UnitsOfPieces(raw, SLASH);
    if COLON in raw {
      UnitInPiece(raw, SLASH, COLON);
    }
    forall i | 0 <= i < |parts|
      ensures (!BadComponent(parts[i]) && !EndsBadly(parts[i]) && |parts[i]| <= 255) <==> PlainComponent(parts[i]) && COLON !in parts[i]
    {
    }
  }

  lemma {:induction false} UnitsOfPieces(s: Units, separator: CodeUnit)
    ensures forall i, c :: 0 <= i < |SplitAt(s, separator)| && c in SplitAt(s, separator)[i] ==> c in s
  {
    if s != [] {
      var rest := s[1..];
      UnitsOfPieces(rest, separator);
      var parts, tail := SplitAt(s, separator), SplitAt(rest, separator);
      assert s == [s[0]] + rest;
      forall i, c | 0 <= i < |parts| && c in parts[i] ensures c in s {
        if s[0] == separator {
          assert i > 0;
          assert parts[i] == tail[i - 1];
          assert c in rest;
        } else if i > 0 {
          assert parts[i] == tail[i];
          assert c in rest;
        } else {
          assert c == s[0] || c in tail[0];
        }
      }
    }
  }

  lemma SharedExactly(raw: Units)
    ensures ValidateScopedText(raw).Ok? && GoodComponents(raw) <==> PlainText(raw)
  {
    hide SplitAt, FoldedPrefix, HasEncodedSeparator, HasEncoded, PlainComponents, GoodComponents;
    EncodedExactly(raw);
    ComponentsExactly(raw);
    FileSchemeHasColon(raw);
    if PlainComponents(raw) {
      NoDotsOrLeadingSlash(raw);
    }
    assert NUL !in raw && BACKSLASH !in raw && COLON !in raw <==>
      forall i :: 0 <= i < |raw| ==> raw[i] != 0 && raw[i] != 0x5C && raw[i] != 0x3A;
  }

  lemma FileSchemeHasColon(raw: Units)
    ensures FoldedPrefix(raw, "file://") ==> COLON in raw
  {
    assert ToUnits("file://")[4] == COLON;
    FoldUnit('f');
    if FoldedPrefix(raw, "file://") {
      assert Fold(raw[4]) == COLON;
    }
  }

  lemma NoDotsOrLeadingSlash(raw: Units)
    requires PlainComponents(raw)
    ensures [DOT, DOT] !in SplitAt(raw, SLASH) && raw != [] && raw[0] != SLASH
  {
    hide SplitAt;
    NothingIsNotPlain();
    LeadingSlash(raw);
    var parts := SplitAt(raw, SLASH);
    forall i | 0 <= i < |parts| ensures parts[i] != [DOT, DOT] && parts[i] != [] {
      assert PlainComponent(parts[i]);
    }
  }

  lemma LeadingSlash(raw: Units)
    ensures raw != [] && raw[0] == SLASH ==> SplitAt(raw, SLASH)[0] == []
  {
  }

  /** The reserved names and the artifact roots are whole first components. */
  lemma RootsByComponents(raw: Units)
    ensures StartsWithAny(raw, RESERVED_ROOTS) <==> SplitAt(raw, SLASH)[0] in Reserved()
    ensures StartsWithAny(raw, ARTIFACT_ROOTS) <==>
      SplitAt(raw, SLASH)[0] == ToUnits("job-artifacts") || SplitAt(raw, SLASH)[0] == ToUnits("screenshots")
  {
    hide SplitAt, ToUnits, IsUnderPrefix, Reserved, IsRootName;
    RootNames();
    AnyByComponents(raw, RESERVED_ROOTS);
    AnyByComponents(raw, ARTIFACT_ROOTS);
    ReservedIsListed(SplitAt(raw, SLASH)[0]);
    assert ARTIFACT_ROOTS[0] == "job-artifacts" && ARTIFACT_ROOTS[1] == "screenshots";
  }

  predicate IsRootName(root: string) {
    forall i :: 0 <= i < |root| ==> root[i] != '/' && root[i] as int < 0x80
  }

  lemma RootNames()
    ensures forall i :: 0 <= i < |RESERVED_ROOTS| ==> IsRootName(RESERVED_ROOTS[i])
    ensures forall i :: 0 <= i < |ARTIFACT_ROOTS| ==> IsRootName(ARTIFACT_ROOTS[i])
  {
    hide IsRootName;
    ProjectRootNames();
    KnowledgeRootNames();
    UnityRootNames();
    ArtifactRootNames();
    assert ARTIFACT_ROOTS[0] == "job-artifacts" && ARTIFACT_ROOTS[1] == "screenshots";
  }

  lemma ProjectRootNames()
    ensures IsRootName("Assets") && IsRootName("AssetsEvil") && IsRootName("Packages") && IsRootName("PackagesEvil")
    ensures IsRootName("ProjectSettings") && IsRootName("Library") && IsRootName("Temp")
  {
  }

  lemma KnowledgeRootNames()
    ensures IsRootName("UnityMcpKnowledge") && IsRootName("UnityMcpKnowledgeEvil")
  {
  }

  lemma UnityRootNames()
    ensures IsRootName("UnityMcpArtifacts") && IsRootName("UnityMcpGatewayCache") && IsRootName("UnityMcpTempSession")
  {
  }

  lemma ArtifactRootNames()
    ensures IsRootName("job-artifacts") && IsRootName("screenshots")
  {
  }

  lemma AnyByComponents(raw: Units, roots: seq<string>)
    requires forall i :: 0 <= i < |roots| ==> IsRootName(roots[i])
    ensures StartsWithAny(raw, roots) <==> exists i :: 0 <= i < |roots| && SplitAt(raw, SLASH)[0] == ToUnits(roots[i])
  {
    hide SplitAt, ToUnits, IsUnderPrefix, IsRootName;
    forall i | 0 <= i < |roots|
      ensures IsUnderPrefix(raw, ToUnits(roots[i])) <==> SplitAt(raw, SLASH)[0] == ToUnits(roots[i])
    {
      UnderRoot(raw, roots[i]);
    }
  }

  function Reserved(): seq<Units> {
    [ToUnits("Assets"), ToUnits("AssetsEvil"), ToUnits("Packages"), ToUnits("PackagesEvil"), ToUnits("ProjectSettings"),
     ToUnits("Library"), ToUnits("Temp"), ToUnits("UnityMcpKnowledge"), ToUnits("UnityMcpKnowledgeEvil"),
     ToUnits("UnityMcpArtifacts"), ToUnits("UnityMcpGatewayCache"), ToUnits("UnityMcpTempSession")]
  }

  lemma ReservedIsListed(part: Units)
    ensures part in Reserved() <==> exists i :: 0 <= i < |RESERVED_ROOTS| && part == ToUnits(RESERVED_ROOTS[i])
  {
    hide ToUnits;
    assert |Reserved()| == |RESERVED_ROOTS|;
    assert forall i :: 0 <= i < |RESERVED_ROOTS| ==> Reserved()[i] == ToUnits(RESERVED_ROOTS[i]);
  }

  lemma UnderRoot(raw: Units, root: string)
    requires IsRootName(root)
    ensures IsUnderPrefix(raw, ToUnits(root)) <==> SplitAt(raw, SLASH)[0] == ToUnits(root)
  {
    hide SplitAt, IsUnderPrefix;
    var units := ToUnits(root);
    assert forall i :: 0 <= i < |units| ==> units[i] != SLASH;
    SplitAtPiece(units, [], SLASH);
    UnderByComponents(raw, units);
  }

  /** Which workflow paths are admitted, and where each one lies in the project. */
  lemma ScopedPathExactly(scope: Scope, raw: Units)
    ensures NormalizeScopedPath(scope, raw).Ok? <==>
      && PlainText(raw) && |raw| <= 4096
      && if scope.Knowledge? then SplitAt(raw, SLASH)[0] !in Reserved()
         else SplitAt(raw, SLASH)[0] == ToUnits("job-artifacts") || SplitAt(raw, SLASH)[0] == ToUnits("screenshots")
    ensures NormalizeScopedPath(scope, raw).Ok? ==>
      var root := if scope.Knowledge? then "Assets/UnityMcpKnowledge/" else "Library/SGGUnityMcp/";
      NormalizeScopedPath(scope, raw).value == ToUnits(root) + raw
  {
    hide ValidateScopedRelative, PlainText, StartsWithAny, SplitAt, Reserved, ToUnits;
    RelativeExactly(raw);
    RootsByComponents(raw);
  }

  // ----- Glob roots -----

  /** The literal prefix ends at the first wildcard after which the component stays on one line. */
  lemma {:induction false} LiteralPrefixExactly(component: Units)
    ensures var k := |LiteralPrefix(component)|;
      && k <= |component| && LiteralPrefix(component) == component[..k]
      && (k < |component| ==> EndsLiteral(component, k))
      && forall i :: 0 <= i < k ==> !EndsLiteral(component, i)
  {
    if component != [] && !EndsLiteral(component, 0) {
      var rest := component[1..];
      LiteralPrefixExactly(rest);
      forall i | 1 <= i < |component| ensures EndsLiteral(component, i) <==> EndsLiteral(rest, i - 1) {
        LiteralBehind(component, i);
      }
      var k := |LiteralPrefix(rest)|;
      assert component[..k + 1] == [component[0]] + rest[..k];
    }
  }

  ghost predicate EndsLiteral(component: Units, k: nat)
    requires k < |component|
  {
    && (component[k] == 0x2A || component[k] == 0x3F)
    && forall i :: k < i < |component| ==>
      component[i] != 0x0A && component[i] != 0x0D && component[i] != 0x2028 && component[i] != 0x2029
  }

  lemma LiteralBehind(component: Units, i: nat)
    requires 1 <= i < |component|
    ensures EndsLiteral(component, i) <==> EndsLiteral(component[1..], i - 1)
  {
    var rest := component[1..];
    assert forall j :: 1 <= j < |component| ==> rest[j - 1] == component[j];
    if EndsLiteral(rest, i - 1) {
      forall j | i < j < |component|
        ensures component[j] != 0x0A && component[j] != 0x0D && component[j] != 0x2028 && component[j] != 0x2029
      {
        assert rest[j - 1] == component[j];
      }
    }
  }

  /** Which glob patterns are admitted; an admitted pattern is used as it stands. */
  lemma ScopedGlobExactly(scope: Scope, raw: Units)
    ensures NormalizeScopedGlob(scope, raw).Ok? <==>
      && PlainText(raw) && |raw| <= 512 && (0x2A in raw || 0x3F in raw)
      && if scope.Knowledge? then SplitAt(LiteralPrefix(SplitAt(raw, SLASH)[0]), SLASH)[0] !in Reserved()
         else SplitAt(raw, SLASH)[0] == ToUnits("job-artifacts") || SplitAt(raw, SLASH)[0] == ToUnits("screenshots")
    ensures NormalizeScopedGlob(scope, raw).Ok? ==> NormalizeScopedGlob(scope, raw).value == raw
  {
    hide ValidateScopedGlob, PlainText, StartsWithAny, SplitAt, Reserved, ToUnits, LiteralPrefix;
    RelativeExactly(raw);
    RootsByComponents(raw);
    RootsByComponents(LiteralPrefix(SplitAt(raw, SLASH)[0]));
  }
}
