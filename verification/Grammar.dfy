/** The canonical path grammar: roots, dot cleanup, printing and strict parsing. */
module Grammar {
  import opened Text

  // ----- Roots as text -----

  predicate HasDriveRoot(value: string) {
    |value| >= 3 && IsLetter(value[0]) && value[1] == ':' && value[2] == '/'
  }

  predicate IsDriveRelative(value: string) {
    |value| >= 2 && IsLetter(value[0]) && value[1] == ':' && (|value| == 2 || value[2] != '/')
  }

  predicate NeedsRelativeMarker(value: string) {
    |value| >= 2 && IsLetter(value[0]) && value[1] == ':'
  }

  function MarkRelative(value: string): string {
    if NeedsRelativeMarker(value) then "./" + value else value
  }

  predicate HasRelativeMarker(value: string) {
    "./" <= value && NeedsRelativeMarker(value[2..])
  }

  function WithoutRelativeMarker(value: string): string {
    if HasRelativeMarker(value) then value[2..] else value
  }

  predicate IsWindowsRoot(prefix: string) {
    prefix != "" && prefix != "/"
  }

  predicate IsDriveRoot(prefix: string) {
    HasDriveRoot(prefix) || ("//?/" <= prefix && HasDriveRoot(prefix[4..]))
  }

  function LowercaseDrive(value: string): string {
    if HasDriveRoot(value) then [ToLower(value[0])] + value[1..]
    else if "//?/" <= value && HasDriveRoot(value[4..]) then value[..4] + [ToLower(value[4])] + value[5..]
    else value
  }

  predicate IsDots(part: string) {
    part == "." || part == ".."
  }

  /** The server and share after `leader`, and the text after the share's slash. */
  function SplitUNCRoot(value: string, leader: string): Result<(string, string)>
    requires leader <= value
  {
    var parts := Split(value[|leader|..]);
    if |parts| < 2 || parts[0] == "" || parts[1] == "" || IsDots(parts[0]) || IsDots(parts[1]) then
      Err(InvalidPath)
    else
      Ok((leader + parts[0] + "/" + parts[1], Join(parts[2..])))
  }

  function SplitRootPrefix(value: string): Result<(string, string)> {
    if "//?/" <= value then
      var tail := value[4..];
      if HasDriveRoot(tail) then Ok((value[..7], value[7..]))
      else if "UNC/" <= tail then
        assert "//?/UNC/" <= value;
        SplitUNCRoot(value, "//?/UNC/")
      else Err(InvalidPath)
    else if HasDriveRoot(value) then Ok((value[..3], value[3..]))
    else if "//" <= value then SplitUNCRoot(value, "//")
    else if "/" <= value then Ok(("/", value[1..]))
    else if IsDriveRelative(value) then Err(DriveRelativePath)
    else Ok(("", value))
  }

  /** The root of a text in canonical grammar and the text after it. */
  function SplitRoot(value: string): Result<(string, string)> {
    var (prefix, rest) :- SplitRootPrefix(value);
    if IsWindowsRoot(prefix) && '\\' in value then Err(InvalidPath) else Ok((prefix, rest))
  }

  // ----- Dot cleanup -----

  /** The stack machine of dot cleanup. `clamp` holds for rooted paths, whose `..` stops at the root. */
  function Resolve(stack: seq<string>, parts: seq<string>, clamp: bool): (r: Option<seq<string>>)
    decreases |parts|
  {
    if parts == [] then Some(stack)
    else if parts[0] == "" || parts[0] == "." then Resolve(stack, parts[1..], clamp)
    else if parts[0] == ".." then
      if |stack| > 0 then Resolve(stack[..|stack| - 1], parts[1..], clamp)
      else if clamp then Resolve(stack, parts[1..], clamp)
      else None
    else Resolve(stack + [parts[0]], parts[1..], clamp)
  }

  function Reassemble(prefix: string, parts: seq<string>): string {
    var joined := Join(parts);
    if prefix == "" then (if joined == "" then "." else MarkRelative(joined))
    else if joined == "" then prefix
    else if prefix[|prefix| - 1] == '/' then prefix + joined
    else prefix + "/" + joined
  }

  /** What cleaning a text in canonical grammar returns. */
  function Cleaned(value: string): Result<string> {
    if value == "" then Err(EmptyPath)
    else if '\0' in value then Err(NulByte)
    else
      var (prefix, rest) :- SplitRoot(value);
      match Resolve([], Split(rest), prefix != "")
      case None => Err(InvalidPath)
      case Some(parts) => Ok(Reassemble(LowercaseDrive(prefix), parts))
  }

  method CleanCanonical(value: string) returns (r: Result<string>)
    ensures r == Cleaned(value)
  {
    if value == "" {
      return Err(EmptyPath);
    }
    if '\0' in value {
      return Err(NulByte);
    }
    var split :- SplitRoot(value);
    var (prefix, rest) := split;
    var raw := Split(rest);
    var parts: seq<string> := [];
    for i := 0 to |raw|
      invariant Resolve([], raw, prefix != "") == Resolve(parts, raw[i..], prefix != "")
    {
      var part := raw[i];
      if part == "" || part == "." {
      } else if part == ".." {
        if |parts| > 0 {
          parts := parts[..|parts| - 1];
        } else if prefix == "" {
          return Err(InvalidPath);
        }
      } else {
        parts := parts + [part];
      }
    }
    return Ok(Reassemble(LowercaseDrive(prefix), parts));
  }

  /** Strict parsing: the text must already be clean, except for the case of its drive letter. */
  function ParseCleanCanonical(value: string): Result<(string, string)> {
    var cleaned :- Cleaned(value);
    if cleaned != LowercaseDrive(value) then Err(InvalidPath)
    else
      var (prefix, rest) :- SplitRoot(value);
      if prefix != "" then Ok((prefix, rest))
      else if rest == "." then Ok(("", ""))
      else Ok(("", WithoutRelativeMarker(rest)))
  }

  // ----- Paths as values -----

  datatype Root =
    | Relative
    | Posix
    | Drive(letter: char)
    | Unc(server: string, share: string)
    | ExtendedDrive(letter: char)
    | ExtendedUnc(server: string, share: string)
  {
    predicate Windows() {
      !Relative? && !Posix?
    }

    function Prefix(): string {
      match this
      case Relative => ""
      case Posix => "/"
      case Drive(d) => [d] + ":/"
      case Unc(s, h) => "//" + s + "/" + h
      case ExtendedDrive(d) => "//?/" + [d] + ":/"
      case ExtendedUnc(s, h) => "//?/UNC/" + s + "/" + h
    }

    /** The same root with a lower-case drive letter. */
    function Lower(): Root {
      match this
      case Drive(d) => Drive(ToLower(d))
      case ExtendedDrive(d) => ExtendedDrive(ToLower(d))
      case _ => this
    }

    ghost predicate Valid() {
      match this
      case Relative => true
      case Posix => true
      case Drive(d) => IsLetter(d)
      case ExtendedDrive(d) => IsLetter(d)
      case Unc(s, h) => Name(s, true) && Name(h, true) && s != "?"
      case ExtendedUnc(s, h) => Name(s, true) && Name(h, true)
    }
  }

  /** A component that survives cleanup; under a Windows root it has no backslash. */
  ghost predicate Name(part: string, windows: bool) {
    && part != "" && !IsDots(part)
    && '/' !in part && '\0' !in part
    && (windows ==> '\\' !in part)
  }

  datatype Path = Path(root: Root, names: seq<string>) {
    ghost predicate Valid() {
      root.Valid() && forall i :: 0 <= i < |names| ==> Name(names[i], root.Windows())
    }

    /** Valid, with a lower-case drive letter. */
    ghost predicate Normal() {
      Valid() && root.Lower() == root
    }

    function Lower(): Path {
      Path(root.Lower(), names)
    }

    function Print(): string {
      if root.Relative? then (if names == [] then "." else MarkRelative(Join(names)))
      else root.Prefix() + Separator() + Join(names)
    }

    function Separator(): string {
      if names != [] && (root.Unc? || root.ExtendedUnc?) then "/" else ""
    }
  }

  /** The root of an accepted text. */
  function RootOf(value: string): Root
    requires SplitRoot(value).Ok?
  {
    if "//?/" <= value then
      if HasDriveRoot(value[4..]) then ExtendedDrive(value[4])
      else
        var parts := Split(value[8..]);
        ExtendedUnc(parts[0], parts[1])
    else if HasDriveRoot(value) then Drive(value[0])
    else if "//" <= value then
      var parts := Split(value[2..]);
      Unc(parts[0], parts[1])
    else if "/" <= value then Posix
    else Relative
  }

  /** The path a text denotes, or why it denotes none. */
  function Denote(value: string): Result<Path> {
    if value == "" then Err(EmptyPath)
    else if '\0' in value then Err(NulByte)
    else
      var (_, rest) :- SplitRoot(value);
      var root := RootOf(value);
      match Resolve([], Split(rest), !root.Relative?)
      case None => Err(InvalidPath)
      case Some(names) => Ok(Path(root.Lower(), names))
  }

  // ----- Facts about roots -----

  /** What an accepted UNC root holds: two segments, and the text after them. */
  lemma UNCShape(value: string, leader: string)
    requires leader <= value && SplitUNCRoot(value, leader).Ok?
    ensures var parts := Split(value[|leader|..]);
      && |parts| >= 2 && Segment(parts[0], value) && Segment(parts[1], value)
      && var (prefix, rest) := SplitUNCRoot(value, leader).value;
      && prefix == leader + parts[0] + "/" + parts[1]
      && (value == prefix + rest || value == prefix + "/" + rest)
  {
    hide Split, Join, Segment;
    var tail := value[|leader|..];
    var parts := Split(tail);
    UNCText(tail);
    assert value == leader + tail;
    UNCSegments(tail, value, 0);
    UNCSegments(tail, value, 1);
    UNCRegroup(leader, parts[0], parts[1], Join(parts[2..]));
    if |parts| == 2 {
      assert parts[2..] == [];
      JoinOfNothing();
      assert leader + parts[0] + "/" + parts[1] + "" == leader + (parts[0] + "/" + parts[1] + "");
    }
  }

  lemma UNCRegroup(leader: string, server: string, share: string, rest: string)
    ensures leader + (server + "/" + share + ("/" + rest)) == leader + server + "/" + share + "/" + rest
  {
  }

  lemma UNCText(tail: string)
    requires |Split(tail)| >= 2
    ensures var parts := Split(tail);
      tail == parts[0] + "/" + parts[1] + (if |parts| == 2 then "" else "/" + Join(parts[2..]))
  {
    var parts := Split(tail);
    JoinOfSplit(tail);
    assert parts[1..][1..] == parts[2..];
  }

  lemma UNCSegments(tail: string, value: string, k: nat)
    requires k < |Split(tail)| && Split(tail)[k] != "" && !IsDots(Split(tail)[k])
    requires forall c :: c in tail ==> c in value
    ensures Segment(Split(tail)[k], value)
  {
    SplitIsSlashFree(tail);
    forall c | c in Split(tail)[k]
      ensures c in value
    {
      CharInSplit(tail, c);
    }
  }

  /** A server or share name that occurs in `value`. */
  ghost predicate Segment(part: string, value: string) {
    part != "" && !IsDots(part) && '/' !in part && forall c :: c in part ==> c in value
  }

  /** The branches of `SplitRootPrefix`, as roots and texts. */
  lemma SplitRootBranches(value: string)
    requires SplitRootPrefix(value).Ok?
    ensures var (prefix, rest) := SplitRootPrefix(value).value;
      if "//?/" <= value then
        if HasDriveRoot(value[4..]) then prefix == ExtendedDrive(value[4]).Prefix() && value == prefix + rest
        else "//?/UNC/" <= value && SplitRootPrefix(value) == SplitUNCRoot(value, "//?/UNC/")
      else if HasDriveRoot(value) then prefix == Drive(value[0]).Prefix() && value == prefix + rest
      else if "//" <= value then SplitRootPrefix(value) == SplitUNCRoot(value, "//")
      else if "/" <= value then prefix == "/" && value == prefix + rest
      else prefix == "" && rest == value
  {
    hide SplitUNCRoot, Split, Join;
    var (prefix, rest) := SplitRootPrefix(value).value;
    if "//?/" <= value {
      if HasDriveRoot(value[4..]) {
        ExtendedDrivePrefix(value);
      }
    }
  }

  lemma ExtendedDrivePrefix(value: string)
    requires "//?/" <= value && HasDriveRoot(value[4..])
    ensures value[..7] == ExtendedDrive(value[4]).Prefix()
  {
    assert ExtendedDrive(value[4]).Prefix() == ['/', '/', '?', '/', value[4], ':', '/'];
    assert value[..4] == "//?/" && value[5] == value[4..][1] && value[6] == value[4..][2];
  }

  /** Splitting loses nothing: the text is its prefix, at most one separator, and its rest. */
  lemma SplitRootShape(value: string)
    requires SplitRoot(value).Ok?
    ensures var (prefix, rest) := SplitRoot(value).value;
      && prefix == RootOf(value).Prefix()
      && (value == prefix + rest || value == prefix + "/" + rest)
      && (prefix == "" <==> RootOf(value).Relative?)
      && (prefix == "" ==> rest == value)
      && IsWindowsRoot(prefix) == RootOf(value).Windows()
  {
    hide SplitRootPrefix, SplitUNCRoot, Root.Prefix, Split;
    SplitRootBranches(value);
    PrefixFacts(RootOf(value));
    if "//?/" <= value {
      if !HasDriveRoot(value[4..]) {
        UNCShape(value, "//?/UNC/");
        UNCPrefixes(Split(value[8..])[0], Split(value[8..])[1]);
      }
    } else if !HasDriveRoot(value) && "//" <= value {
      UNCShape(value, "//");
      UNCPrefixes(Split(value[2..])[0], Split(value[2..])[1]);
    } else {
      SimplePrefixes();
    }
  }

  lemma UNCPrefixes(server: string, share: string)
    ensures Unc(server, share).Prefix() == "//" + server + "/" + share
    ensures ExtendedUnc(server, share).Prefix() == "//?/UNC/" + server + "/" + share
  {
  }

  lemma SimplePrefixes()
    ensures Posix.Prefix() == "/" && Root.Relative.Prefix() == ""
  {
  }

  /** What the rest of the grammar needs to know about a prefix. */
  lemma PrefixFacts(root: Root)
    ensures IsWindowsRoot(root.Prefix()) == root.Windows()
    ensures root.Prefix() == "" <==> root.Relative?
    ensures root.Valid() && !root.Relative? ==>
      (root.Prefix()[|root.Prefix()| - 1] == '/' <==> !root.Unc? && !root.ExtendedUnc?)
  {
    var prefix := root.Prefix();
    match root
    case Unc(s, h) => assert root.Valid() ==> prefix[|prefix| - 1] == h[|h| - 1] != '/';
    case ExtendedUnc(s, h) => assert root.Valid() ==> prefix[|prefix| - 1] == h[|h| - 1] != '/';
    case _ =>
  }

  lemma RootIsValid(value: string)
    requires SplitRoot(value).Ok? && '\0' !in value
    ensures RootOf(value).Valid()
  {
    hide SplitRootPrefix, Root.Prefix;
    SplitRootShape(value);
    SplitRootBranches(value);
    if "//?/" <= value {
      if !HasDriveRoot(value[4..]) {
        UNCShape(value, "//?/UNC/");
      }
    } else if !HasDriveRoot(value) && "//" <= value {
      UNCShape(value, "//");
      ServerIsNotQuestionMark(value);
    }
  }

  lemma ServerIsNotQuestionMark(value: string)
    requires "//" <= value && !("//?/" <= value) && |Split(value[2..])| >= 2
    ensures Split(value[2..])[0] != "?"
  {
    var tail := value[2..];
    if Split(tail)[0] == "?" {
      UNCText(tail);
    }
  }

  /** A valid root in front of any text is read back exactly. */
  lemma RootReadsBack(root: Root, separator: string, text: string)
    requires root.Valid() && !root.Relative?
    requires separator == "" || (separator == "/" && (root.Unc? || root.ExtendedUnc?))
    requires separator == "" && (root.Unc? || root.ExtendedUnc?) ==> text == ""
    requires root.Windows() ==> '\\' !in text
    requires root.Posix? ==> !("/" <= text)
    ensures var value := root.Prefix() + separator + text;
      SplitRoot(value) == Ok((root.Prefix(), text)) && RootOf(value) == root
  {
    match root
    case Posix => assert (root.Prefix() + separator + text)[1..] == text;
    case Drive(d) => DriveReadsBack(d, text);
    case ExtendedDrive(d) => ExtendedDriveReadsBack(d, text);
    case Unc(s, h) => OrdinaryUNCReadsBack(s, h, separator, text);
    case ExtendedUnc(s, h) => ExtendedUNCReadsBack(s, h, separator, text);
  }

  lemma DriveReadsBack(d: char, text: string)
    requires IsLetter(d) && '\\' !in text
    ensures var value := Drive(d).Prefix() + "" + text;
      SplitRoot(value) == Ok((Drive(d).Prefix(), text)) && RootOf(value) == Drive(d)
  {
    var value := Drive(d).Prefix() + "" + text;
    assert Drive(d).Prefix() == [d, ':', '/'] && value[0] == d;
    assert value[..3] == Drive(d).Prefix() && value[3..] == text;
  }

  lemma ExtendedDriveReadsBack(d: char, text: string)
    requires IsLetter(d) && '\\' !in text
    ensures var value := ExtendedDrive(d).Prefix() + "" + text;
      SplitRoot(value) == Ok((ExtendedDrive(d).Prefix(), text)) && RootOf(value) == ExtendedDrive(d)
  {
    var prefix := ExtendedDrive(d).Prefix();
    var value := prefix + "" + text;
    assert prefix == ['/', '/', '?', '/', d, ':', '/'];
    assert value[..7] == prefix && value[7..] == text;
  }

  lemma OrdinaryUNCReadsBack(s: string, h: string, separator: string, text: string)
    requires Unc(s, h).Valid() && '\\' !in text
    requires (separator == "" && text == "") || separator == "/"
    ensures var value := Unc(s, h).Prefix() + separator + text;
      SplitRoot(value) == Ok((Unc(s, h).Prefix(), text)) && RootOf(value) == Unc(s, h)
  {
    var value := Unc(s, h).Prefix() + separator + text;
    var tail := s + "/" + h + separator + text;
    UNCReadsBack(s, h, separator, text);
    UNCTail("//", s, h, separator, text);
  }

  lemma ExtendedUNCReadsBack(s: string, h: string, separator: string, text: string)
    requires ExtendedUnc(s, h).Valid() && '\\' !in text
    requires (separator == "" && text == "") || separator == "/"
    ensures var value := ExtendedUnc(s, h).Prefix() + separator + text;
      SplitRoot(value) == Ok((ExtendedUnc(s, h).Prefix(), text)) && RootOf(value) == ExtendedUnc(s, h)
  {
    var value := ExtendedUnc(s, h).Prefix() + separator + text;
    var tail := s + "/" + h + separator + text;
    var leader := "//?/UNC/";
    UNCReadsBack(s, h, separator, text);
    UNCTail(leader, s, h, separator, text);
    assert SplitUNCRoot(value, leader) == Ok((ExtendedUnc(s, h).Prefix(), text));
    ExtendedUNCIsSplit(value);
  }

  lemma UNCTail(leader: string, server: string, share: string, separator: string, text: string)
    ensures var value := leader + server + "/" + share + separator + text;
      leader <= value && value[|leader|..] == server + "/" + share + separator + text
  {
    var tail := server + "/" + share + separator + text;
    assert leader + server + "/" + share + separator + text == leader + tail;
  }

  lemma ExtendedUNCIsSplit(value: string)
    requires "//?/UNC/" <= value
    ensures SplitRootPrefix(value) == SplitUNCRoot(value, "//?/UNC/")
    ensures SplitRoot(value).Ok? ==> RootOf(value) == ExtendedUnc(Split(value[8..])[0], Split(value[8..])[1])
  {
    assert value[4] == 'U' && value[5] == 'N';
    assert value[4..][1] == 'N' && value[4..][..4] == "UNC/";
  }

  lemma UNCReadsBack(server: string, share: string, separator: string, text: string)
    requires Name(server, true) && Name(share, true)
    requires (separator == "" && text == "") || separator == "/"
    ensures var tail := server + "/" + share + separator + text;
      && Split(tail)[0] == server && |Split(tail)| >= 2 && Split(tail)[1] == share
      && Join(Split(tail)[2..]) == text
  {
    var tail := server + "/" + share + separator + text;
    if separator == "" {
      assert tail == server + "/" + share;
      SplitAfterSlash(server, share);
      SplitOfPlain(share);
    } else {
      assert tail == server + "/" + (share + "/" + text);
      SplitAfterSlash(server, share + "/" + text);
      SplitAfterSlash(share, text);
      assert Split(tail)[2..] == Split(text);
      JoinOfSplit(text);
    }
  }
}
