/** What the reference grammar accepts and what it makes of it, said without its stack machine. */
module Acceptance {
  import opened Text
  import opened Grammar
  import opened Identity
  import opened Meaning
  import opened RelativePaths
  import opened RawStability
  import opened Normalize
  import opened CSharpGrammar

  // ----- Texts by their characters -----

  predicate StartsLikeDrive(value: string) {
    |value| >= 2 && ('a' <= value[0] <= 'z' || 'A' <= value[0] <= 'Z') && value[1] == ':'
  }

  /** A letter and a colon that no slash follows. */
  predicate StartsDriveRelative(value: string) {
    StartsLikeDrive(value) && (|value| == 2 || value[2] != '/')
  }

  predicate StartsRooted(value: string) {
    (|value| >= 1 && value[0] == '/') || (StartsLikeDrive(value) && |value| >= 3 && value[2] == '/')
  }

  /** The names that raw parts lead to from the top of the tree of names. */
  function Led(parts: seq<string>): seq<string> {
    Walk([], parts, ParentList, ChildList)
  }

  /** Some prefix of the parts goes above where it started. */
  ghost predicate Dips(parts: seq<string>) {
    exists k :: 0 <= k <= |parts| && Depth(parts[..k]) < 0
  }

  // ----- Roots -----

  /** A text that a root, at most one separator and a rest make up in the only way the grammar allows. */
  ghost predicate Reads(value: string, root: Root, separator: string, text: string) {
    && root.Valid() && value == root.Prefix() + separator + text
    && (separator == "" || (separator == "/" && (root.Unc? || root.ExtendedUnc?)))
    && (separator == "" && (root.Unc? || root.ExtendedUnc?) ==> text == "")
    && (root.Windows() ==> '\\' !in text)
    && (root.Posix? || root.Relative? ==> !("/" <= text))
    && (root.Relative? ==> !StartsLikeDrive(text))
  }

  lemma UNCRest(value: string, leader: string)
    requires leader <= value && SplitUNCRoot(value, leader).Ok?
    ensures var (prefix, rest) := SplitUNCRoot(value, leader).value;
      value == prefix + "/" + rest || (value == prefix && rest == "")
  {
    hide Split, Join;
    var tail := value[|leader|..];
    var parts := Split(tail);
    UNCText(tail);
    UNCRegroup(leader, parts[0], parts[1], Join(parts[2..]));
    if |parts| == 2 {
      assert parts[2..] == [];
      JoinOfNothing();
    }
    assert value == leader + tail;
  }

  lemma RootSeparator(value: string)
    requires SplitRoot(value).Ok?
    ensures var (prefix, rest) := SplitRoot(value).value;
      if RootOf(value).Unc? || RootOf(value).ExtendedUnc? then value == prefix + "/" + rest || (value == prefix && rest == "")
      else value == prefix + rest
  {
    hide SplitUNCRoot, Split, Root.Prefix;
    SplitRootBranches(value);
    if "//?/" <= value {
      if !HasDriveRoot(value[4..]) {
        UNCRest(value, "//?/UNC/");
      }
    } else if !HasDriveRoot(value) && "//" <= value {
      UNCRest(value, "//");
    }
  }

  /** The pieces of an accepted text. */
  lemma AcceptedReads(value: string)
    requires SplitRoot(value).Ok? && '\0' !in value
    ensures exists root: Root, separator: string, text: string :: Reads(value, root, separator, text)
  {
    hide SplitRootPrefix, SplitUNCRoot, Root.Prefix, Root.Valid;
    var (prefix, rest) := SplitRoot(value).value;
    var root := RootOf(value);
    SplitRootShape(value);
    RootIsValid(value);
    RootSeparator(value);
    PlainStart(value);
    if (root.Unc? || root.ExtendedUnc?) && value == prefix + "/" + rest {
      assert Reads(value, root, "/", rest);
    } else {
      assert prefix + "" + rest == prefix + rest;
      if root.Unc? || root.ExtendedUnc? {
        assert prefix + "" + "" == prefix;
        assert Reads(value, root, "", "");
      } else {
        assert Reads(value, root, "", rest);
      }
    }
  }

  lemma PlainStart(value: string)
    requires SplitRoot(value).Ok?
    ensures RootOf(value).Posix? ==> SplitRoot(value).value.0 == "/" && !("/" <= SplitRoot(value).value.1)
    ensures RootOf(value).Relative? ==>
      SplitRoot(value).value == ("", value) && !("/" <= value) && !StartsLikeDrive(value)
  {
    hide SplitUNCRoot;
    if RootOf(value).Posix? {
      assert "//" <= value <==> |value| >= 2 && value[0] == '/' && value[1] == '/';
    }
  }

  /** The grammar accepts exactly the texts that read as one of the six roots with a rest. */
  lemma RootsExactly(value: string)
    requires '\0' !in value
    ensures SplitRoot(value).Ok? <==>
      exists root: Root, separator: string, text: string :: Reads(value, root, separator, text)
  {
    if SplitRoot(value).Ok? {
      AcceptedReads(value);
    }
    if root: Root, separator: string, text: string :| Reads(value, root, separator, text) {
      if root.Relative? {
        assert value == text;
        RelativeTextIsAccepted(text);
      } else {
        hide SplitRoot, Root.Prefix, Root.Valid;
        RootReadsBack(root, separator, text);
      }
    }
  }

  lemma RelativeTextIsAccepted(text: string)
    requires !("/" <= text) && !StartsLikeDrive(text)
    ensures SplitRoot(text) == Ok(("", text)) && RootOf(text).Relative?
  {
    assert text != "" ==> text[0] != '/';
  }

  /** Why a root is refused: drive-relative text has its own error. */
  lemma RootErrors(value: string)
    requires SplitRoot(value).Err?
    ensures SplitRoot(value).code == if StartsDriveRelative(value) then DriveRelativePath else InvalidPath
  {
    hide Split;
    assert "//?/" <= value || "//" <= value || "/" <= value ==> value[0] == '/';
  }

  // ----- Cleaning -----

  /**
   * Cleaning, said completely: which inputs it refuses and why, and what it prints for the others, namely their root with
   * a lower-case drive letter and the names that their components lead to.
   */
  lemma CleansExactly(value: string)
    ensures Cleaned(value) ==
      if value == "" then Err(EmptyPath)
      else if '\0' in value then Err(NulByte)
      else if SplitRoot(value).Err? then Err(SplitRoot(value).code)
      else if RootOf(value).Relative? && Dips(RawParts(value)) then Err(InvalidPath)
      else Ok(Path(RootOf(value).Lower(), Led(RawParts(value))).Print())
  {
    hide SplitRoot, Resolve, RootOf, Path.Print, Root.Prefix;
    CleanedPrintsDenoted(value);
    if value != "" && '\0' !in value && SplitRoot(value).Ok? {
      ResolvesExactly(RawParts(value), !RootOf(value).Relative?);
    }
  }

  /** The stack machine refuses exactly an unclamped dip, and otherwise finds the names that the parts lead to. */
  lemma ResolvesExactly(parts: seq<string>, clamp: bool)
    ensures Resolve([], parts, clamp) == if !clamp && Dips(parts) then None else Some(Led(parts))
  {
    if clamp {
      RootedNeverEscapes([], parts);
    } else {
      ResolveFailsIffDips([], parts);
    }
    if Resolve([], parts, clamp).Some? {
      ResolvedIsLed(parts, clamp);
    }
  }

  lemma ResolvedIsLed(parts: seq<string>, clamp: bool)
    requires Resolve([], parts, clamp).Some?
    ensures Resolve([], parts, clamp).value == Led(parts)
  {
    hide Resolve;
    var names := Resolve([], parts, clamp).value;
    assert forall n, name :: ParentList(ChildList(n, name)) == n;
    ResolveKeepsPlace([], [], parts, clamp, ParentList, ChildList);
    ResolvedAreProper([], parts, clamp);
    WalkOfNames([], names);
    assert [] + names == names;
  }

  lemma {:induction false} ResolvedAreProper(stack: seq<string>, parts: seq<string>, clamp: bool)
    requires forall i :: 0 <= i < |stack| ==> stack[i] != "" && !IsDots(stack[i])
    requires Resolve(stack, parts, clamp).Some?
    ensures forall i :: 0 <= i < |Resolve(stack, parts, clamp).value| ==>
      Resolve(stack, parts, clamp).value[i] != "" && !IsDots(Resolve(stack, parts, clamp).value[i])
    decreases |parts|
  {
    if parts == [] {
    } else if parts[0] == "" || parts[0] == "." {
      ResolvedAreProper(stack, parts[1..], clamp);
    } else if parts[0] == ".." {
      ResolvedAreProper(if |stack| > 0 then stack[..|stack| - 1] else stack, parts[1..], clamp);
    } else {
      ResolvedAreProper(stack + [parts[0]], parts[1..], clamp);
    }
  }

  /** The names that undipping parts lead to stand for the same place as the parts, in every tree without links. */
  lemma LedKeepsPlace<N(!new)>(parts: seq<string>, n: N, up: N -> N, down: (N, string) -> N)
    requires LinkFree(up, down) && !Dips(parts)
    ensures Walk(n, parts, up, down) == Walk(n, Led(parts), up, down)
  {
    ResolvesExactly(parts, false);
    ResolveKeepsPlace(n, [], parts, false, up, down);
  }

  /** The drive letter of a cleaned path is in lower case. */
  lemma CleanedDriveIsLower(value: string)
    requires Cleaned(value).Ok?
    ensures SplitRoot(Cleaned(value).value).Ok?
    ensures var root := RootOf(Cleaned(value).value);
      (root.Drive? ==> 'a' <= root.letter <= 'z') && (root.ExtendedDrive? ==> 'a' <= root.letter <= 'z')
  {
    hide SplitRoot, RootOf, Path.Print;
    CleanedPrintsDenoted(value);
    PrintSplits(Denote(value).value);
  }

  /** A relative path is printed with the marker exactly when its first name starts like a drive. */
  lemma MarkerExactly(names: seq<string>)
    requires Names(names, false) && names != []
    ensures StartsLikeDrive(Join(names)) <==> StartsLikeDrive(names[0])
    ensures Path(Root.Relative, names).Print() == if StartsLikeDrive(names[0]) then "./" + Join(names) else Join(names)
  {
    hide Split;
    FirstChars(names);
  }

  lemma FirstChars(names: seq<string>)
    requires Names(names, false) && names != []
    ensures Join(names) != "" && Join(names)[0] == names[0][0]
    ensures |names[0]| >= 2 ==> |Join(names)| >= 2 && Join(names)[1] == names[0][1]
    ensures |names[0]| == 1 && |Join(names)| >= 2 ==> Join(names)[1] == '/'
  {
    JoinNonEmpty(names);
    if |names| > 1 {
      assert Join(names) == names[0] + "/" + Join(names[1..]);
    }
  }

  /** The C# cleaner names an escape by its caller's code, in both grammars, and nothing else changes with that code. */
  lemma EscapesWithCode(value: string, nativePosix: bool, code: ErrorCode)
    ensures CleanedGrammar(value, nativePosix, code) ==
      if ParseGrammar(value, nativePosix).Ok? && ParseGrammar(value, nativePosix).value.prefix == ""
         && Dips(Split(ParseGrammar(value, nativePosix).value.rest)) then Err(code)
      else CleanedGrammar(value, nativePosix, InvalidPath)
  {
    hide ParseGrammar, Resolve, Split, Printed;
    var parsed := ParseGrammar(value, nativePosix);
    if parsed.Ok? {
      ResolvesExactly(Split(parsed.value.rest), parsed.value.prefix != "");
    }
  }

  // ----- Strict parsing -----

  lemma StrictErrors(value: string)
    requires ParseCleanCanonical(value).Err?
    ensures ParseCleanCanonical(value).code == if Cleaned(value).Err? then Cleaned(value).code else InvalidPath
  {
    hide Cleaned;
    if Cleaned(value).Ok? {
      CleanedHasRoot(value);
    }
  }

  lemma CleanedHasRoot(value: string)
    requires Cleaned(value).Ok?
    ensures SplitRoot(value).Ok?
  {
  }

  // ----- Relative arguments -----

  /** What a relative argument means, said completely. */
  lemma RelativeNamesExactly(raw: string)
    ensures RelativeNames(raw) ==
      if raw == "" then Err(EmptyPath)
      else if '\0' in raw then Err(NulByte)
      else if StartsRooted(raw) then Err(AbsolutePath)
      else if StartsDriveRelative(raw) then Err(DriveRelativePath)
      else if Dips(Split(raw)) then Err(OutsideRoot)
      else Ok(Led(Split(raw)))
  {
    hide Resolve, Split;
    ResolvesExactly(Split(raw), false);
    assert "/" <= raw <==> raw != "" && raw[0] == '/';
  }

  /** A relative argument escapes exactly when it dips below its start; otherwise its text prints the names it leads to. */
  lemma CleanedRelativeExactly(raw: string)
    requires raw != "" && '\0' !in raw && !StartsRooted(raw) && !StartsDriveRelative(raw)
    ensures CleanedRelative(raw) == Err(OutsideRoot) <==> Dips(Split(raw))
    ensures !Dips(Split(raw)) ==> CleanedRelative(raw) == Ok(Path(Root.Relative, Led(Split(raw))).Print())
  {
    hide RelativeNames, Split, Led;
    RelativeNamesExactly(raw);
  }

  /** A join, said completely: its refusals in order, and the root's names followed by those the argument leads to. */
  lemma JoinExactly(p: Path, relative: string)
    requires p.Valid()
    ensures JoinUnder(p.Print(), relative) ==
      if p.root.Windows() && '\\' in relative then Err(InvalidPath)
      else if relative == "" then Err(EmptyPath)
      else if '\0' in relative then Err(NulByte)
      else if StartsRooted(relative) then Err(AbsolutePath)
      else if StartsDriveRelative(relative) then Err(DriveRelativePath)
      else if Dips(Split(relative)) then Err(OutsideRoot)
      else Ok(Path(p.root, p.names + Led(Split(relative))).Print())
  {
    hide RelativeNames, JoinUnder, Split, Led, Path.Print;
    JoinAppendsNames(p, relative);
    RelativeNamesExactly(relative);
  }

  /** A root that strict parsing refuses is refused with the parser's error, before the argument is looked at. */
  lemma JoinNeedsCanonicalRoot(root: string, relative: string)
    ensures ParseCleanCanonical(root).Err? ==> JoinUnder(root, relative) == Err(ParseCleanCanonical(root).code)
  {
    hide ParseCleanCanonical, CleanedRelative;
  }

  /** Both operands of a relative form must be canonical and absolute. */
  lemma RelativeErrors(root: string, target: string)
    ensures CanonicalParts(root).Err? ==> RelativeOf(root, target) == Err(CanonicalParts(root).code)
    ensures CanonicalParts(root).Ok? && CanonicalParts(target).Err? ==> RelativeOf(root, target) == Err(CanonicalParts(target).code)
    ensures CanonicalParts(root).Err? ==>
      CanonicalParts(root).code == if ParseCleanCanonical(root).Err? then ParseCleanCanonical(root).code else InvalidPath
  {
    hide ParseCleanCanonical;
  }

  // ----- The strict validator -----

  predicate StartsAbsolute(raw: string) {
    || (|raw| >= 1 && raw[0] == '/')
    || (|raw| >= 2 && raw[0] == '\\' && raw[1] == '\\')
    || (StartsLikeDrive(raw) && |raw| >= 3 && (raw[2] == '/' || raw[2] == '\\'))
  }

  /** The strict validator of untrusted input, said completely. */
  lemma StrictRelativeSays(raw: string)
    ensures StrictRelative(raw) ==
      if raw == "" then Err(EmptyPath)
      else if raw == "." then Ok(".")
      else if '\0' in raw then Err(NulByte)
      else if StartsAbsolute(raw) then Err(AbsolutePath)
      else if StartsDriveRelative(raw) then Err(DriveRelativePath)
      else if '\\' in raw then Err(InvalidPath)
      else if Dips(Split(raw)) then Err(OutsideRoot)
      else if Led(Split(raw)) == [] then Err(EmptyPath)
      else Ok(Join(Led(Split(raw))))
  {
    hide Resolve, Split, Join;
    ResolvesExactly(Split(raw), false);
    AbsoluteByCharacters(raw);
  }

  lemma AbsoluteByCharacters(raw: string)
    ensures IsAbsolutePathLike(raw) <==> StartsAbsolute(raw)
  {
    var slashed := Replace(raw, '\\', '/');
    assert forall i :: 0 <= i < |raw| ==> slashed[i] == if raw[i] == '\\' then '/' else raw[i];
    assert "/" <= raw <==> |raw| >= 1 && raw[0] == '/';
    assert "\\\\" <= raw <==> |raw| >= 2 && raw[0] == '\\' && raw[1] == '\\';
  }
}
