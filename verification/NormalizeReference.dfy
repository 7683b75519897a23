/** What normalization reads, refuses and returns, mode by mode, said without the functions that compute it. */
module NormalizeReference {
  import opened Text
  import opened Grammar
  import opened Identity
  import opened Meaning
  import opened Acceptance
  import opened Normalize
  import opened NormalizeLaws
  import opened HostLaws
  import RawStability
  import WindowsLaws

  // ----- Device names -----

  predicate SameLetter(c: char, capital: char) {
    c == capital || ('A' <= capital <= 'Z' && c as int == capital as int + 32)
  }

  predicate SpelledAs(text: string, name: string) {
    |text| == |name| && forall i :: 0 <= i < |name| ==> SameLetter(text[i], name[i])
  }

  /** One of the four plain names, or `COM` or `LPT` and a digit from one to nine, in any case. */
  predicate SpellsDevice(text: string) {
    || SpelledAs(text, "CON") || SpelledAs(text, "PRN") || SpelledAs(text, "AUX") || SpelledAs(text, "NUL")
    || (|text| == 4 && '1' <= text[3] <= '9' && (SpelledAs(text[..3], "COM") || SpelledAs(text[..3], "LPT")))
  }

  /** A component that names a Windows device, in any case, before its first dot or colon. */
  predicate NamesDevice(part: string) {
    exists k :: 0 <= k <= |part| && EndsBase(part, k) && SpellsDevice(part[..k])
  }

  predicate EndsBase(part: string, k: nat)
    requires k <= |part|
  {
    (k < |part| ==> part[k] == '.' || part[k] == ':') && forall i :: 0 <= i < k ==> part[i] != '.' && part[i] != ':'
  }

  lemma {:induction false} BaseEnd(part: string)
    ensures |DeviceBase(part)| <= |part| && DeviceBase(part) == part[..|DeviceBase(part)|]
    ensures EndsBase(part, |DeviceBase(part)|)
  {
    if part != "" && part[0] != '.' && part[0] != ':' {
      BaseEnd(part[1..]);
      var k := |DeviceBase(part[1..])|;
      assert part[..k + 1] == [part[0]] + part[1..][..k];
    }
  }

  lemma OneBase(part: string, k: nat, m: nat)
    requires k <= |part| && m <= |part| && EndsBase(part, k) && EndsBase(part, m)
    ensures k == m
  {
  }

  function Upper(base: string): string {
    seq(|base|, i requires 0 <= i < |base| => ToUpper(base[i]))
  }

  lemma UpperSpells(base: string, name: string)
    requires forall i :: 0 <= i < |name| ==> 'A' <= name[i] <= 'Z' || '0' <= name[i] <= '9'
    ensures Upper(base) == name <==> SpelledAs(base, name)
  {
    if SpelledAs(base, name) {
      assert forall i :: 0 <= i < |name| ==> Upper(base)[i] == name[i];
    }
    if Upper(base) == name {
      forall i | 0 <= i < |name| ensures SameLetter(base[i], name[i]) {
        assert Upper(base)[i] == ToUpper(base[i]) == name[i];
      }
    }
  }

  lemma ReservedBaseExactly(base: string)
    ensures IsReservedDeviceBase(base) <==> SpellsDevice(base)
  {
    hide SpelledAs;
    var upper := Upper(base);
    UpperSpells(base, "CON");
    UpperSpells(base, "PRN");
    UpperSpells(base, "AUX");
    UpperSpells(base, "NUL");
    if |base| == 4 {
      UpperSpells(base[..3], "COM");
      UpperSpells(base[..3], "LPT");
      assert upper[..3] == Upper(base[..3]);
      assert upper[3] == ToUpper(base[3]);
    }
  }

  lemma ReservedExactly(part: string)
    ensures IsReservedPart(part) <==> NamesDevice(part)
  {
    hide IsReservedDeviceBase, SpellsDevice, DeviceBase;
    BaseEnd(part);
    var k := |DeviceBase(part)|;
    ReservedBaseExactly(DeviceBase(part));
    NothingSpelled();
    if m :| 0 <= m <= |part| && EndsBase(part, m) && SpellsDevice(part[..m]) {
      OneBase(part, k, m);
    }
    if IsDots(part) || part == "" {
      assert part != "" ==> part[0] == '.';
      assert k == 0 && part[..k] == "";
    }
  }

  lemma NothingSpelled()
    ensures !SpellsDevice("")
  {
  }

  // ----- Policies, profiles and the common tail -----

  ghost predicate HoldsStream(parts: seq<string>) {
    exists i :: 0 <= i < |parts| && ':' in parts[i]
  }

  ghost predicate HoldsDevice(parts: seq<string>) {
    exists i :: 0 <= i < |parts| && NamesDevice(parts[i])
  }

  /** Why the policies refuse these raw components, if they do. */
  ghost function PolicyError(parts: seq<string>, opts: Options): Option<ErrorCode> {
    if opts.rejectADS && HoldsStream(parts) then Some(AlternateDataStream)
    else if opts.rejectDeviceNames && HoldsDevice(parts) then Some(ReservedDeviceName)
    else None
  }

  /** The policies look at every raw component after the root, streams first. */
  lemma PoliciesExactly(value: string, opts: Options)
    requires SplitRoot(value).Ok?
    ensures ValidateWindowsComponents(value, opts) ==
      var error := PolicyError(RawParts(value), opts); if error.Some? then Err(error.value) else Ok(())
  {
    hide SplitRoot, HoldsStream, HoldsDevice, HasReservedDeviceName;
    StreamsExactly(value);
    DevicesExactly(value);
  }

  lemma StreamsExactly(value: string)
    requires SplitRoot(value).Ok?
    ensures HasWindowsADS(value) <==> HoldsStream(RawParts(value))
  {
    hide SplitRoot, Split;
    var parts := RawParts(value);
    CharInSplit(SplitRoot(value).value.1, ':');
    if HasWindowsADS(value) {
      var i :| 0 <= i < |parts| && ':' in parts[i];
    }
    if HoldsStream(parts) {
      var i :| 0 <= i < |parts| && ':' in parts[i];
    }
  }

  lemma DevicesExactly(value: string)
    requires SplitRoot(value).Ok?
    ensures HasReservedDeviceName(value) <==> HoldsDevice(RawParts(value))
  {
    hide SplitRoot, Split, IsReservedPart, NamesDevice;
    var parts := RawParts(value);
    forall i | 0 <= i < |parts| ensures IsReservedPart(parts[i]) <==> NamesDevice(parts[i]) {
      ReservedExactly(parts[i]);
    }
    if HasReservedDeviceName(value) {
      var i :| 0 <= i < |parts| && IsReservedPart(parts[i]);
      assert NamesDevice(parts[i]);
    }
    if HoldsDevice(parts) {
      var i :| 0 <= i < |parts| && NamesDevice(parts[i]);
      assert IsReservedPart(parts[i]);
    }
  }

  /** Which roots a target profile takes. */
  predicate Takes(profile: Profile, root: Root) {
    match profile
    case AnyProfile => true
    case Portable => true
    case PosixOnly => root.Posix? || root.Relative?
    case Win32Drive => root.Drive? || root.ExtendedDrive? || root.Relative?
    case Unsupported => false
  }

  lemma ProfileExactly(value: string, profile: Profile)
    requires SplitRoot(value).Ok? && '\0' !in value
    ensures ValidateTargetProfile(value, profile) == if Takes(profile, RootOf(value)) then Ok(()) else Err(InvalidPath)
  {
    hide SplitRoot, RootOf;
    ProfileJudgesRoot(value);
    SomeProfile(value);
    ProfileCode(value, profile);
  }

  lemma ProfileCode(value: string, profile: Profile)
    requires SplitRoot(value).Ok?
    ensures ValidateTargetProfile(value, profile).Err? ==> ValidateTargetProfile(value, profile).code == InvalidPath
  {
    hide SplitRoot;
  }

  /** The tail of every mode: root, raw components, dips, profile, in this order; then the cleaned path. */
  ghost function Judged(root: Root, parts: seq<string>, opts: Options): Result<string> {
    var error := PolicyError(parts, opts);
    if error.Some? then Err(error.value)
    else if root.Relative? && Dips(parts) then Err(InvalidPath)
    else if !Takes(opts.profile, root) then Err(InvalidPath)
    else Ok(Path(root.Lower(), Led(parts)).Print())
  }

  lemma FinishExactly(value: string, opts: Options)
    requires value != "" && '\0' !in value
    ensures Finish(value, opts) ==
      if SplitRoot(value).Err? then Err(SplitRoot(value).code) else Judged(RootOf(value), RawParts(value), opts)
  {
    hide SplitRoot, RootOf, Path.Print, ValidateWindowsComponents, ValidateTargetProfile, PolicyError, Cleaned, Led, Dips,
      RawParts;
    if SplitRoot(value).Ok? {
      PoliciesExactly(value, opts);
      CleansExactly(value);
      CleanedPrintsDenoted(value);
      if Cleaned(value).Ok? {
        DenotedRoot(value);
        var p := Denote(value).value;
        PrintSplits(p);
        PrintHasNoNul(p);
        ProfileExactly(p.Print(), opts.profile);
      }
    }
  }

  // ----- Native POSIX input -----

  /** A dot or an empty component in front changes nothing. */
  lemma Leads(part: string, parts: seq<string>)
    requires part == "" || part == "."
    ensures Led([part] + parts) == Led(parts)
    ensures Dips([part] + parts) <==> Dips(parts)
    ensures HoldsStream([part] + parts) <==> HoldsStream(parts)
    ensures HoldsDevice([part] + parts) <==> HoldsDevice(parts)
  {
    hide NamesDevice;
    var all := [part] + parts;
    assert all[1..] == parts;
    DipsBehind(part, parts);
    NoDevice(part);
    forall i | 0 <= i < |parts| ensures all[i + 1] == parts[i] {
    }
    if HoldsStream(parts) {
      var i :| 0 <= i < |parts| && ':' in parts[i];
      assert ':' in all[i + 1];
    }
    if HoldsDevice(parts) {
      var i :| 0 <= i < |parts| && NamesDevice(parts[i]);
      assert NamesDevice(all[i + 1]);
    }
  }

  lemma NoDevice(part: string)
    requires part == "" || part == "."
    ensures !NamesDevice(part)
  {
    ReservedExactly(part);
  }

  lemma DipsBehind(part: string, parts: seq<string>)
    requires part == "" || part == "."
    ensures Dips([part] + parts) <==> Dips(parts)
  {
    hide Led;
    ResolvesExactly([part] + parts, false);
    ResolvesExactly(parts, false);
    assert ([part] + parts)[1..] == parts;
  }

  lemma {:induction false} SlashesLead(value: string, k: nat)
    requires k <= |value| && forall i :: 0 <= i < k ==> value[i] == '/'
    ensures Led(Split(value)) == Led(Split(value[k..]))
    ensures HoldsStream(Split(value)) <==> HoldsStream(Split(value[k..]))
    ensures HoldsDevice(Split(value)) <==> HoldsDevice(Split(value[k..]))
    decreases k
  {
    if k == 0 {
      assert value[0..] == value;
    } else {
      SlashesLead(value[1..], k - 1);
      assert value[1..][k - 1..] == value[k..];
      assert value == "" + "/" + value[1..];
      SplitAfterSlash("", value[1..]);
      Leads("", Split(value[1..]));
    }
  }

  predicate TwoSlashes(value: string) {
    |value| >= 2 && value[0] == '/' && value[1] == '/' && (|value| == 2 || value[2] != '/')
  }

  predicate SlashRooted(value: string) {
    value != "" && value[0] == '/'
  }

  /** Prepared native input has the root its first character says, and components that lead where the raw ones do. */
  lemma PreparedExactly(value: string)
    requires value != "" && '\0' !in value
    ensures PrepareNativePOSIX(value).Err? <==> TwoSlashes(value)
    ensures PrepareNativePOSIX(value).Err? ==> PrepareNativePOSIX(value).code == InvalidPath
    ensures PrepareNativePOSIX(value).Ok? ==>
      var prepared := PrepareNativePOSIX(value).value;
      && prepared != "" && '\0' !in prepared && SplitRoot(prepared).Ok?
      && RootOf(prepared) == (if SlashRooted(value) then Posix else Root.Relative)
      && Led(RawParts(prepared)) == Led(Split(value))
      && (!SlashRooted(value) ==> (Dips(RawParts(prepared)) <==> Dips(Split(value))))
      && (HoldsStream(RawParts(prepared)) <==> HoldsStream(Split(value)))
      && (HoldsDevice(RawParts(prepared)) <==> HoldsDevice(Split(value)))
  {
    hide Split, Led, Dips, HoldsStream, HoldsDevice, LeadingSlashes;
    LeadingSlashesBound(value);
    var leading := LeadingSlashes(value);
    if leading != 2 {
      var prepared := PrepareNativePOSIX(value).value;
      if leading == 0 {
        assert !SlashRooted(value);
        PreparedRelative(value);
      } else {
        PreparedRooted(value, leading);
        assert leading == 1 ==> value == "/" + value[1..];
        if leading > 1 {
          assert prepared == "/" + value[leading..];
          assert !NeedsRelativeMarker(prepared);
        }
      }
    }
  }

  lemma PreparedRooted(value: string, leading: nat)
    requires 0 < leading <= |value| && forall i :: 0 <= i < leading ==> value[i] == '/'
    requires leading < |value| ==> value[leading] != '/'
    ensures var prepared := "/" + value[leading..];
      && SplitRoot(prepared) == Ok(("/", value[leading..])) && RootOf(prepared) == Posix
      && Led(RawParts(prepared)) == Led(Split(value))
      && (HoldsStream(RawParts(prepared)) <==> HoldsStream(Split(value)))
      && (HoldsDevice(RawParts(prepared)) <==> HoldsDevice(Split(value)))
  {
    hide Split, Led, HoldsStream, HoldsDevice, SplitRoot, RootOf, Root.Prefix;
    SimplePrefixes();
    SlashesLead(value, leading);
    RootReadsBack(Posix, "", value[leading..]);
    assert "/" + "" + value[leading..] == "/" + value[leading..];
  }

  lemma PreparedRelative(value: string)
    requires !SlashRooted(value) && value != ""
    ensures var prepared := MarkRelative(value);
      && SplitRoot(prepared).Ok? && RootOf(prepared) == Root.Relative
      && Led(RawParts(prepared)) == Led(Split(value))
      && (Dips(RawParts(prepared)) <==> Dips(Split(value)))
      && (HoldsStream(RawParts(prepared)) <==> HoldsStream(Split(value)))
      && (HoldsDevice(RawParts(prepared)) <==> HoldsDevice(Split(value)))
  {
    hide Split, Led, Dips, HoldsStream, HoldsDevice, SplitRoot, RootOf;
    if NeedsRelativeMarker(value) {
      var marked := "./" + value;
      assert marked[0] == '.' && marked[1] == '/';
      RelativeTextIsAccepted(marked);
      assert "./" + value == "." + "/" + value;
      SplitAfterSlash(".", value);
      Leads(".", Split(value));
    } else {
      RelativeTextIsAccepted(value);
    }
  }

  /** Native POSIX mode, said completely. */
  lemma PosixModeExactly(raw: string, opts: Options, decodeUri: string -> Result<string>)
    requires opts.host.NativePosix?
    ensures Normalized(raw, opts, decodeUri) ==
      if raw == "" then Err(EmptyPath)
      else if '\0' in raw then Err(NulByte)
      else if NormalizeMountRoot(opts.mountRoot).Err? then Err(NormalizeMountRoot(opts.mountRoot).code)
      else if opts.wslEnabled || TwoSlashes(raw) then Err(InvalidPath)
      else Judged(if SlashRooted(raw) then Posix else Root.Relative, Split(raw), opts)
  {
    hide NormalizeMountRoot, PrepareNativePOSIX, Finish, Split, Led, Dips, HoldsStream, HoldsDevice, SplitRoot, RootOf,
      RawParts, Path.Print;
    if raw != "" && '\0' !in raw {
      PreparedExactly(raw);
      if PrepareNativePOSIX(raw).Ok? {
        FinishExactly(PrepareNativePOSIX(raw).value, opts);
      }
    }
  }

  /** Canonical mode, said completely: the text is read as it stands, and WSL options are only validated. */
  lemma CanonicalModeExactly(raw: string, opts: Options, decodeUri: string -> Result<string>)
    requires opts.host.Canonical?
    ensures Normalized(raw, opts, decodeUri) ==
      if raw == "" then Err(EmptyPath)
      else if '\0' in raw then Err(NulByte)
      else if NormalizeMountRoot(opts.mountRoot).Err? then Err(NormalizeMountRoot(opts.mountRoot).code)
      else if SplitRoot(raw).Err? then Err(SplitRoot(raw).code)
      else Judged(RootOf(raw), RawParts(raw), opts)
  {
    hide NormalizeMountRoot, Finish, SplitRoot, Judged;
    if raw != "" && '\0' !in raw {
      FinishExactly(raw, opts);
    }
  }

  /** Mount roots, said completely. */
  lemma MountRootExactly(value: string)
    ensures NormalizeMountRoot(value) ==
      if '\0' in value then Err(NulByte)
      else if value == "" then Ok("/mnt")
      else if !SlashRooted(value) || TwoSlashes(value) then Err(InvalidPath)
      else Ok(Path(Posix, Led(Split(value))).Print())
  {
    hide PrepareNativePOSIX, Split, Led, Path.Print, Cleaned, SplitRoot, RootOf, Dips, HoldsStream, HoldsDevice, RawParts;
    assert "/" <= value <==> SlashRooted(value);
    if value == "" {
      RawStability.DefaultMount();
    } else if '\0' !in value && SlashRooted(value) {
      PreparedExactly(value);
      if PrepareNativePOSIX(value).Ok? {
        CleansExactly(PrepareNativePOSIX(value).value);
      }
    }
  }

  // ----- Raw input -----

  predicate SchemeCharacter(c: char) {
    'a' <= c <= 'z' || 'A' <= c <= 'Z' || '0' <= c <= '9' || c == '+' || c == '-' || c == '.'
  }

  /** Some scheme characters and then `://`. */
  ghost predicate StartsWithScheme(value: string) {
    exists end :: 0 < end && end + 3 <= |value| && SchemeEndsAt(value, end)
  }

  ghost predicate SchemeEndsAt(value: string, end: nat)
    requires end + 3 <= |value|
  {
    value[end] == ':' && value[end + 1] == '/' && value[end + 2] == '/' && forall i :: 0 <= i < end ==> SchemeCharacter(value[i])
  }

  lemma SchemeExactly(value: string)
    ensures HasURIScheme(value) <==> StartsWithScheme(value)
  {
    hide SchemeEnd;
    if HasURIScheme(value) {
      var end := SchemeEnd(value);
      RawStability.SchemeText(value);
      assert value[end..end + 3][0] == ':' && value[end..end + 3][1] == '/' && value[end..end + 3][2] == '/';
      assert SchemeEndsAt(value, end);
    }
    if end :| 0 < end && end + 3 <= |value| && SchemeEndsAt(value, end) {
      FirstScheme(value, end);
    }
  }

  lemma {:induction false} FirstScheme(value: string, end: nat)
    requires end + 3 <= |value| && value[end] == ':' && value[end + 1] == '/' && value[end + 2] == '/'
    requires forall i :: 0 <= i < end ==> value[i] != ':'
    ensures SchemeEnd(value) == end
  {
    assert value[..3] == [value[0], value[1], value[2]];
    if end > 0 {
      FirstScheme(value[1..], end - 1);
    }
  }

  /** Slash-rooted, but not with exactly two slashes. */
  predicate ReadsAsPosix(text: string) {
    SlashRooted(text) && (|text| == 1 || text[1] != '/' || (|text| >= 3 && text[2] == '/'))
  }

  predicate IsSlashDrive(text: string) {
    |text| >= 4 && text[0] == '/' && ('a' <= text[1] <= 'z' || 'A' <= text[1] <= 'Z') && text[2] == ':' && text[3] == '/'
  }

  /** What the raw grammar reads: a URI decoded once, and anything else as it stands. */
  ghost function Decoded(raw: string, decodeUri: string -> Result<string>): Result<string> {
    if StartsWithScheme(raw) then decodeUri(raw) else Ok(raw)
  }

  /** Raw modes read the decoded text under WSL or Windows rules, whichever applies, and judge the result. */
  lemma RawModeExactly(raw: string, opts: Options, decodeUri: string -> Result<string>)
    requires IsRawHost(opts.host)
    ensures Normalized(raw, opts, decodeUri) ==
      if raw == "" then Err(EmptyPath)
      else if '\0' in raw then Err(NulByte)
      else if NormalizeMountRoot(opts.mountRoot).Err? then Err(NormalizeMountRoot(opts.mountRoot).code)
      else if Decoded(raw, decodeUri).Err? then Err(Decoded(raw, decodeUri).code)
      else
        var text := Decoded(raw, decodeUri).value;
        var read := if opts.wslEnabled && ReadsAsPosix(text) && !(StartsWithScheme(raw) && IsSlashDrive(text))
          then WSLInput(text, opts, NormalizeMountRoot(opts.mountRoot).value) else CrossHostInput(text, opts);
        if read.Err? then Err(read.code) else Finish(read.value, opts)
  {
    hide NormalizeMountRoot, Finish, WSLInput, CrossHostInput, HasURIScheme, StartsWithScheme;
    SchemeExactly(raw);
    if '\0' !in raw && Decoded(raw, decodeUri).Ok? {
      var text := Decoded(raw, decodeUri).value;
      assert IsWSLCandidate(text) <==> ReadsAsPosix(text) by {
        assert "/" <= text <==> text != "" && text[0] == '/';
        assert "//" <= text <==> |text| >= 2 && text[0] == '/' && text[1] == '/';
        assert "///" <= text <==> |text| >= 3 && text[0] == '/' && text[1] == '/' && text[2] == '/';
      }
    }
  }

  /**
   * Reading under WSL: policies on all raw components, then the drive that the components lead to below the mount, or the
   * POSIX path they lead to.
   */
  lemma WSLReadsExactly(text: string, opts: Options, ms: seq<string>)
    requires ReadsAsPosix(text) && '\0' !in text && Names(ms, false)
    ensures var error, xs := PolicyError(Split(text), opts), Led(Split(text));
      WSLInput(text, opts, Path(Posix, ms).Print()) ==
        if error.Some? then Err(error.value)
        else if opts.profile != PosixOnly && ms <= xs && |ms| < |xs| && |xs[|ms|]| == 1 && IsLetter(xs[|ms|][0]) then
          Ok([ToLower(xs[|ms|][0])] + ":/" + Join(xs[|ms| + 1..]))
        else Ok(Path(Posix, xs).Print())
  {
    hide PrepareNativePOSIX, Split, Led, Path.Print, Cleaned, SplitRoot, RootOf, Dips, HoldsStream, HoldsDevice, RawParts,
      MapWSLDrive, ValidateWindowsComponents, Join;
    PreparedExactly(text);
    var prepared := PrepareNativePOSIX(text).value;
    PoliciesExactly(prepared, opts);
    CleansExactly(prepared);
    LedAreNames(text);
    MapByComponents(ms, Led(Split(text)));
  }

  lemma LedAreNames(text: string)
    requires '\0' !in text
    ensures Names(Led(Split(text)), false)
  {
    hide Split, Led, Dips;
    ResolvesExactly(Split(text), true);
    PartsAreClean(text, false);
    ResolveYieldsNames([], Split(text), true, false);
  }

  // ----- Windows and other cross-host text -----

  ghost predicate IsSlashed(slashed: string, text: string) {
    |slashed| == |text| && forall i :: 0 <= i < |text| ==> slashed[i] == if text[i] == '\\' then '/' else text[i]
  }

  predicate StartsExtended(value: string) {
    |value| >= 4 && value[0] == '/' && value[1] == '/' && value[2] == '?' && value[3] == '/'
  }

  predicate StartsExtendedUnc(value: string) {
    StartsExtended(value) && |value| >= 8 && value[4] == 'U' && value[5] == 'N' && value[6] == 'C' && value[7] == '/'
  }

  /**
   * Reading cross-host text: backslashes are slashes; an extended prefix must be well formed and, unless it is preserved,
   * comes off; a slash before a drive comes off; everything else stays.
   */
  lemma CrossHostReadsExactly(text: string, opts: Options, slashed: string)
    requires IsSlashed(slashed, text)
    ensures CrossHostInput(text, opts) ==
      if StartsExtended(slashed) && SplitRoot(slashed).Err? then Err(InvalidPath)
      else if StartsExtendedUnc(slashed) && !opts.preserveExtendedLength then Ok("//" + slashed[8..])
      else if StartsExtended(slashed) && !opts.preserveExtendedLength then Ok(slashed[4..])
      else if IsSlashDrive(slashed) then Ok(slashed[1..])
      else Ok(slashed)
  {
    hide SplitRoot;
    assert Replace(text, '\\', '/') == slashed;
    ExtendedByCharacters(slashed);
    if StartsExtended(slashed) {
      if SplitRoot(slashed).Err? {
        RootErrors(slashed);
      } else {
        ExtendedShape(slashed);
      }
    }
  }

  lemma ExtendedByCharacters(value: string)
    ensures "//?/" <= value <==> StartsExtended(value)
    ensures "//?/UNC/" <= value <==> StartsExtendedUnc(value)
  {
    assert |value| >= 4 ==> value[..4] == [value[0], value[1], value[2], value[3]];
    assert |value| >= 8 ==> value[4..8] == [value[4], value[5], value[6], value[7]] && value[..8] == value[..4] + value[4..8];
  }

  lemma ExtendedShape(value: string)
    requires "//?/" <= value && SplitRoot(value).Ok?
    ensures !IsURIWindowsDrivePath(value[4..]) && !("//?/UNC/" <= value && IsURIWindowsDrivePath("//" + value[8..]))
    ensures !IsURIWindowsDrivePath(value)
  {
    hide SplitUNCRoot;
    assert value[1] == '/' && value[4..] != "";
    if "//?/UNC/" <= value {
      assert value[4..][0] == 'U';
    }
  }

  /** Unwrapping an extended root gives the ordinary root with the same drive or the same server and share. */
  lemma UnwrapByRoot(p: Path)
    requires p.root.ExtendedDrive? || p.root.ExtendedUnc?
    ensures UnwrapWindowsExtendedPrefix(p.Print()) ==
      if p.root.ExtendedDrive? then Path(Drive(p.root.letter), p.names).Print()
      else Path(Unc(p.root.server, p.root.share), p.names).Print()
  {
    hide Join, UnwrapWindowsExtendedPrefix, Path.Print;
    if p.root.ExtendedDrive? {
      ExtendedDrivePrint(p.root.letter, p.names);
      UnwrapDrive(Path(Drive(p.root.letter), p.names).Print());
    } else {
      var inner := ExtendedUncPrint(p.root.server, p.root.share, p.names);
      UnwrapUnc(inner);
    }
  }

  lemma ExtendedDrivePrint(d: char, names: seq<string>)
    ensures var inner := Path(Drive(d), names).Print();
      Path(ExtendedDrive(d), names).Print() == "//?/" + inner && |inner| >= 2 && inner[1] == ':'
  {
    hide Join;
    var inner := [d] + ":/" + Join(names);
    assert Path(Drive(d), names).Print() == inner;
    assert Path(ExtendedDrive(d), names).Print() == "//?/" + [d] + ":/" + Join(names);
  }

  lemma ExtendedUncPrint(server: string, share: string, names: seq<string>) returns (inner: string)
    ensures Path(ExtendedUnc(server, share), names).Print() == "//?/UNC/" + inner
    ensures Path(Unc(server, share), names).Print() == "//" + inner
  {
    hide Join;
    var joined := Join(names);
    var separator := if names == [] then "" else "/";
    UncText("//?/UNC/", server, share, separator, joined);
    UncText("//", server, share, separator, joined);
    assert Path(ExtendedUnc(server, share), names).Separator() == Path(Unc(server, share), names).Separator() == separator;
    inner := server + "/" + share + separator + joined;
  }

  lemma UncText(leader: string, server: string, share: string, separator: string, text: string)
    ensures leader + server + "/" + share + separator + text == leader + (server + "/" + share + separator + text)
  {
  }

  lemma UnwrapDrive(inner: string)
    requires |inner| >= 2 && inner[1] == ':'
    ensures UnwrapWindowsExtendedPrefix("//?/" + inner) == inner
  {
    var value := "//?/" + inner;
    assert value[5] == ':' && value[4..] == inner;
    ExtendedByCharacters(value);
  }

  lemma UnwrapUnc(inner: string)
    ensures UnwrapWindowsExtendedPrefix("//?/UNC/" + inner) == "//" + inner
  {
    var value := "//?/UNC/" + inner;
    assert value[8..] == inner;
  }

  // ----- Writing for hosts -----

  /** Writing for WSL, root by root. */
  lemma ToWSLExactly(value: string, mountRoot: string)
    ensures NormalizeMountRoot(mountRoot).Err? ==> ToWSL(value, mountRoot) == Err(NormalizeMountRoot(mountRoot).code)
    ensures NormalizeMountRoot(mountRoot).Ok? && ParseCleanCanonical(value).Err? ==>
      ToWSL(value, mountRoot) == Err(ParseCleanCanonical(value).code)
    ensures NormalizeMountRoot(mountRoot).Ok? && ParseCleanCanonical(value).Ok? ==>
      && SplitRoot(value).Ok?
      && (RootOf(value).Posix? || RootOf(value).Relative? ==> ToWSL(value, mountRoot) == Ok(value))
      && (ToWSL(value, mountRoot).Err? <==> RootOf(value).Unc? || RootOf(value).ExtendedDrive? || RootOf(value).ExtendedUnc?)
      && (ToWSL(value, mountRoot).Err? ==> ToWSL(value, mountRoot).code == InvalidPath)
  {
    hide NormalizeMountRoot, ParseCleanCanonical, Path.Print, Root.Prefix, Root.Valid, SplitRoot, RootOf;
    if NormalizeMountRoot(mountRoot).Ok? && ParseCleanCanonical(value).Ok? {
      ParsedIsPrinted(value);
      var p := PathOf(value);
      PrintSplits(p);
      ParsedOfPrint(p);
      PrefixFacts(p.root);
      DrivePrefixExactly(p.root);
    }
  }

  lemma DrivePrefixExactly(root: Root)
    requires root.Valid()
    ensures HasDriveRoot(root.Prefix()) <==> root.Drive?
  {
    match root
    case Unc(s, h) => assert root.Prefix()[0] == '/';
    case ExtendedDrive(d) => assert root.Prefix()[0] == '/';
    case ExtendedUnc(s, h) => assert root.Prefix()[0] == '/';
    case Drive(d) => assert root.Prefix()[0] == d;
    case _ =>
  }

  /** Where a path's drive letter is printed. */
  function LetterAt(root: Root): Option<nat> {
    match root
    case Drive(_) => Some(0)
    case ExtendedDrive(_) => Some(4)
    case _ => None
  }

  predicate IsCapitalOf(c: char, letter: char) {
    'A' <= c <= 'Z' && (c == letter || c as int + 32 == letter as int)
  }

  /** The Windows form, character by character: the drive letter is a capital, slashes are backslashes, the rest stays. */
  ghost predicate IsWindowsForm(written: string, value: string, letterAt: Option<nat>) {
    && |written| == |value|
    && forall i :: 0 <= i < |value| ==>
      if letterAt == Some(i) then IsCapitalOf(written[i], value[i])
      else written[i] == if value[i] == '/' then '\\' else value[i]
  }

  /** Which canonical paths have a Windows form, and what it is. */
  lemma ToWin32Exactly(p: Path)
    requires p.Valid()
    ensures ToWin32(p.Print()).Ok? <==>
      !p.root.Posix? && '\\' !in p.Print() && !(p.root.Relative? && p.names != [] && StartsLikeDrive(p.names[0]))
    ensures ToWin32(p.Print()).Err? ==> ToWin32(p.Print()).code == InvalidPath
    ensures ToWin32(p.Print()).Ok? ==> IsWindowsForm(ToWin32(p.Print()).value, p.Print(), LetterAt(p.root))
  {
    hide ParseCleanCanonical, Path.Print, Root.Prefix, UppercaseDrive, Replace, HasRelativeMarker;
    ParsedOfPrint(p);
    PrefixFacts(p.root);
    PosixPrefixExactly(p.root);
    MarkedExactly(p);
    if ToWin32(p.Print()).Ok? {
      UppercasedExactly(p);
      SlashesReplaced(UppercaseDrive(p.Print()), p.Print(), LetterAt(p.root));
    }
  }

  lemma PosixPrefixExactly(root: Root)
    requires root.Valid()
    ensures root.Prefix() == "/" <==> root.Posix?
  {
    match root
    case Unc(s, h) => assert |root.Prefix()| > 1;
    case ExtendedUnc(s, h) => assert |root.Prefix()| > 1;
    case _ =>
  }

  lemma MarkedExactly(p: Path)
    requires p.Valid()
    ensures HasRelativeMarker(p.Print()) <==> p.root.Relative? && p.names != [] && StartsLikeDrive(p.names[0])
  {
    hide Join;
    if p.root.Relative? {
      if p.names != [] {
        NamesJoin(p.names, false);
        MarkerExactly(p.names);
        assert ("./" + Join(p.names))[2..] == Join(p.names);
      }
    } else {
      NoDotInFront(p);
    }
  }

  lemma NoDotInFront(p: Path)
    requires p.Valid() && !p.root.Relative?
    ensures !("./" <= p.Print())
  {
    hide Join;
    var prefix := p.root.Prefix();
    assert p.Print()[0] == prefix[0];
    match p.root
    case Drive(d) => assert prefix[0] == d;
    case Posix => assert prefix[0] == '/';
    case Unc(_, _) => assert prefix[0] == '/';
    case ExtendedDrive(_) => assert prefix[0] == '/';
    case ExtendedUnc(_, _) => assert prefix[0] == '/';
  }

  lemma UppercasedExactly(p: Path)
    requires p.Valid()
    ensures |UppercaseDrive(p.Print())| == |p.Print()|
    ensures LetterAt(p.root).Some? ==> LetterAt(p.root).value < |p.Print()| && p.Print()[LetterAt(p.root).value] == p.root.letter
    ensures forall i :: 0 <= i < |p.Print()| ==>
      if LetterAt(p.root) == Some(i) then IsCapitalOf(UppercaseDrive(p.Print())[i], p.Print()[i])
      else UppercaseDrive(p.Print())[i] == p.Print()[i]
  {
    hide Join;
    var value := p.Print();
    match p.root
    case Drive(d) =>
      assert value == [d] + ":/" + p.Separator() + Join(p.names) && value[0] == d && value[1] == ':' && value[2] == '/';
    case ExtendedDrive(d) =>
      assert value == "//?/" + [d] + ":/" + p.Separator() + Join(p.names);
      assert value[0] == '/' && value[4] == d && value[5] == ':' && value[6] == '/';
    case _ => WindowsLaws.NoUpperDriveInPrint(p);
  }

  lemma SlashesReplaced(upper: string, value: string, letterAt: Option<nat>)
    requires |upper| == |value|
    requires forall i :: 0 <= i < |value| ==>
      if letterAt == Some(i) then IsCapitalOf(upper[i], value[i]) else upper[i] == value[i]
    ensures IsWindowsForm(Replace(upper, '/', '\\'), value, letterAt)
  {
  }
}
