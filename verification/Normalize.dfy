/** Turning host input into canonical paths, and canonical paths into host text. */
module Normalize {
  import opened Text
  import opened Grammar

  datatype Host = NativePosix | Canonical | Win32 | Wsl | VSCodeFileUri | DevContainer | SshRemote | Unspecified

  datatype Profile = AnyProfile | Portable | Win32Drive | PosixOnly | Unsupported

  datatype Options = Options(
    host: Host,
    profile: Profile,
    wslEnabled: bool,
    mountRoot: string,
    preserveExtendedLength: bool,
    rejectDeviceNames: bool,
    rejectADS: bool)

  // ----- Native POSIX input -----

  function LeadingSlashes(value: string): nat {
    if "/" <= value then 1 + LeadingSlashes(value[1..]) else 0
  }

  lemma {:induction false} LeadingSlashesBound(value: string)
    ensures LeadingSlashes(value) <= |value|
    ensures forall i :: 0 <= i < LeadingSlashes(value) ==> value[i] == '/'
    ensures LeadingSlashes(value) < |value| ==> value[LeadingSlashes(value)] != '/'
  {
    if "/" <= value {
      LeadingSlashesBound(value[1..]);
    }
  }

  function PrepareNativePOSIX(value: string): Result<string> {
    LeadingSlashesBound(value);
    var leading := LeadingSlashes(value);
    if leading == 2 then Err(InvalidPath)
    else Ok(MarkRelative(if leading > 2 then "/" + value[leading..] else value))
  }

  function CleanNativePOSIX(value: string): Result<string> {
    var prepared :- PrepareNativePOSIX(value);
    Cleaned(prepared)
  }

  // ----- WSL mounts -----

  function NormalizeMountRoot(value: string): Result<string> {
    if '\0' in value then Err(NulByte)
    else
      var mount := if value == "" then "/mnt" else value;
      if !("/" <= mount) then Err(InvalidPath) else CleanNativePOSIX(mount)
  }

  function WithoutFinalSlash(value: string): string {
    if value != "" && value[|value| - 1] == '/' then value[..|value| - 1] else value
  }

  /** The drive text for a cleaned path under an already normalized mount root. */
  function MapWSLDrive(value: string, mountRoot: string): Option<string> {
    var prefix := WithoutFinalSlash(mountRoot) + "/";
    if !(prefix <= value) then None
    else
      var rest := value[|prefix|..];
      if |rest| < 1 || !IsLetter(rest[0]) || (|rest| > 1 && rest[1] != '/') then None
      else Some([ToLower(rest[0])] + ":/" + (if |rest| == 1 then "" else rest[2..]))
  }

  /** An ordinary drive path as a path under the WSL mount root. */
  function ToWSL(value: string, mountRoot: string): Result<string> {
    var mount :- NormalizeMountRoot(mountRoot);
    var (prefix, _) :- ParseCleanCanonical(value);
    if IsWindowsRoot(prefix) && !HasDriveRoot(prefix) then Err(InvalidPath)
    else if !HasDriveRoot(prefix) then Ok(value)
    else
      SplitRootShape(value);
      Ok(WithoutFinalSlash(mount) + "/" + [ToLower(value[0])] + (if value[3..] != "" then "/" + value[3..] else ""))
  }

  // ----- Windows text -----

  function Replace(value: string, from: char, to: char): string {
    seq(|value|, i requires 0 <= i < |value| => if value[i] == from then to else value[i])
  }

  function UppercaseDrive(value: string): string {
    if HasDriveRoot(value) then [ToUpper(value[0])] + value[1..]
    else if "//?/" <= value && HasDriveRoot(value[4..]) then value[..4] + [ToUpper(value[4])] + value[5..]
    else value
  }

  function ToWin32(value: string): Result<string> {
    var (prefix, _) :- ParseCleanCanonical(value);
    if prefix == "/" || '\\' in value || HasRelativeMarker(value) then Err(InvalidPath)
    else Ok(Replace(UppercaseDrive(value), '/', '\\'))
  }

  function UnwrapWindowsExtendedPrefix(value: string): string {
    if "//?/UNC/" <= value then "//" + value[8..]
    else if "//?/" <= value then value[4..]
    else value
  }

  predicate IsURIWindowsDrivePath(value: string) {
    |value| >= 4 && value[0] == '/' && IsLetter(value[1]) && value[2] == ':' && value[3] == '/'
  }

  // ----- Component policies and target profiles -----

  predicate HasWindowsADS(value: string) {
    SplitRoot(value).Ok? && ':' in SplitRoot(value).value.1
  }

  /** The part of a component before its first dot or colon. */
  function DeviceBase(part: string): string {
    if part == "" || part[0] == '.' || part[0] == ':' then ""
    else [part[0]] + DeviceBase(part[1..])
  }

  predicate IsReservedDeviceBase(base: string) {
    var upper := seq(|base|, i requires 0 <= i < |base| => ToUpper(base[i]));
    || upper in ["CON", "PRN", "AUX", "NUL"]
    || (|upper| == 4 && upper[..3] in ["COM", "LPT"] && '1' <= upper[3] <= '9')
  }

  predicate IsReservedPart(part: string) {
    part != "" && !IsDots(part) && IsReservedDeviceBase(DeviceBase(part))
  }

  predicate HasReservedDeviceName(value: string) {
    SplitRoot(value).Ok? && exists i :: 0 <= i < |Split(SplitRoot(value).value.1)| && IsReservedPart(Split(SplitRoot(value).value.1)[i])
  }

  /** `Ok` when the raw components meet the chosen Windows policies. */
  function ValidateWindowsComponents(value: string, opts: Options): Result<()> {
    if opts.rejectADS && HasWindowsADS(value) then Err(AlternateDataStream)
    else if opts.rejectDeviceNames && HasReservedDeviceName(value) then Err(ReservedDeviceName)
    else Ok(())
  }

  function ValidateTargetProfile(value: string, profile: Profile): Result<()> {
    var (prefix, _) :- SplitRoot(value);
    match profile
    case AnyProfile => Ok(())
    case Portable => Ok(())
    case PosixOnly => if IsWindowsRoot(prefix) then Err(InvalidPath) else Ok(())
    case Win32Drive =>
      if prefix == "/" || (IsWindowsRoot(prefix) && !IsDriveRoot(prefix)) then Err(InvalidPath) else Ok(())
    case Unsupported => Err(InvalidPath)
  }

  // ----- Normalization -----

  /** Where `://` first occurs, or -1. */
  function SchemeEnd(value: string): int {
    if |value| < 3 then -1
    else if value[..3] == "://" then 0
    else if SchemeEnd(value[1..]) < 0 then -1
    else SchemeEnd(value[1..]) + 1
  }

  predicate IsSchemeChar(c: char) {
    'a' <= c <= 'z' || 'A' <= c <= 'Z' || '0' <= c <= '9' || c == '+' || c == '-' || c == '.'
  }

  predicate HasURIScheme(value: string) {
    var end := SchemeEnd(value);
    end > 0 && forall i :: 0 <= i < end && i < |value| ==> IsSchemeChar(value[i])
  }

  /** Slash-rooted text that WSL mode reads as POSIX: not exactly two leading slashes. */
  predicate IsWSLCandidate(value: string) {
    "/" <= value && (!("//" <= value) || "///" <= value)
  }

  /** Both file URI prefixes are URI schemes; text without a scheme passes unchanged. Decoding is `decodeUri`. */
  function ParseFileURI(uri: string, decodeUri: string -> Result<string>): Result<string> {
    if '\0' in uri then Err(NulByte) else if HasURIScheme(uri) then decodeUri(uri) else Ok(uri)
  }

  /** The text that the raw grammar reads. */
  function RawText(raw: string, opts: Options, decodeUri: string -> Result<string>): Result<string> {
    if HasURIScheme(raw) || opts.host.VSCodeFileUri? then ParseFileURI(raw, decodeUri) else Ok(raw)
  }

  /** Raw cross-host input as text in canonical grammar. */
  function RawInput(raw: string, opts: Options, mountRoot: string, decodeUri: string -> Result<string>): Result<string> {
    var value :- RawText(raw, opts, decodeUri);
    if opts.wslEnabled && IsWSLCandidate(value) && !(HasURIScheme(raw) && IsURIWindowsDrivePath(value)) then
      WSLInput(value, opts, mountRoot)
    else CrossHostInput(value, opts)
  }

  function WSLInput(value: string, opts: Options, mountRoot: string): Result<string> {
    var prepared :- PrepareNativePOSIX(value);
    var _ :- ValidateWindowsComponents(prepared, opts);
    var cleaned :- Cleaned(prepared);
    if !opts.profile.PosixOnly? && MapWSLDrive(cleaned, mountRoot).Some? then
      Ok(MapWSLDrive(cleaned, mountRoot).value)
    else Ok(cleaned)
  }

  function CrossHostInput(value: string, opts: Options): Result<string> {
    var slashed := Replace(value, '\\', '/');
    if "//?/" <= slashed && SplitRoot(slashed).Err? then Err(SplitRoot(slashed).code)
    else
      var unwrapped := if opts.preserveExtendedLength then slashed else UnwrapWindowsExtendedPrefix(slashed);
      Ok(if IsURIWindowsDrivePath(unwrapped) then unwrapped[1..] else unwrapped)
  }

  function Interpret(raw: string, opts: Options, mountRoot: string, decodeUri: string -> Result<string>): Result<string> {
    match opts.host
    case NativePosix => PrepareNativePOSIX(raw)
    case Canonical => Ok(raw)
    case _ => RawInput(raw, opts, mountRoot, decodeUri)
  }

  /** Policies on the raw components come before cleanup; the profile judges the cleaned root. */
  function Finish(value: string, opts: Options): Result<string> {
    var _ :- SplitRoot(value);
    var _ :- ValidateWindowsComponents(value, opts);
    var cleaned :- Cleaned(value);
    var _ :- ValidateTargetProfile(cleaned, opts.profile);
    Ok(cleaned)
  }

  function Normalized(raw: string, opts: Options, decodeUri: string -> Result<string>): Result<string> {
    if raw == "" then Err(EmptyPath)
    else if '\0' in raw then Err(NulByte)
    else
      var mountRoot :- NormalizeMountRoot(opts.mountRoot);
      if opts.host.NativePosix? && opts.wslEnabled then Err(InvalidPath)
      else
        var value :- Interpret(raw, opts, mountRoot, decodeUri);
        Finish(value, opts)
  }
}
