/** The rules for a Unity project's path aliases, on values. */
module AliasRules {
  import opened Text
  import opened Basics
  import opened Grammar
  import Normalize

  datatype HostKind = PosixHost | Win32Host | WslHost | VSCodeFileUri | DevContainer | SshRemote | CanonicalHost

  datatype TargetProfile = Portable | Win32Drive | PosixProfile

  datatype WslGroup = WslGroup(enabled: Option<bool>, mountRoot: Option<string>)

  datatype UriGroup = UriGroup(
    allowFileUri: Option<bool>,
    allowVSCodeFileUri: Option<bool>,
    rejectEncodedSlash: Option<bool>)

  datatype WindowsGroup = WindowsGroup(
    preserveExtendedLength: Option<bool>,
    rejectDeviceNames: Option<bool>,
    rejectADS: Option<bool>)

  datatype Options = Options(
    sourceHost: Option<HostKind>,
    targetProfile: Option<TargetProfile>,
    wsl: Option<WslGroup>,
    uri: Option<UriGroup>,
    windows: Option<WindowsGroup>,
    trimOuterWhitespace: Option<bool>)

  const NoOptions := Options(None, None, None, None, None, None)

  datatype AliasRegistration = AliasRegistration(
    clientType: string,
    clientId: string,
    environmentId: string,
    hostKind: Option<HostKind>,
    hostRoot: string,
    options: Option<Options>,
    labelText: Option<string>)

  datatype Alias = Alias(
    projectId: string,
    canonicalProjectPath: string,
    clientType: string,
    clientId: string,
    environmentId: string,
    hostKind: HostKind,
    hostRoot: string,
    options: Options,
    labelText: Option<string>)

  datatype ProjectRegistration = ProjectRegistration(
    projectId: string,
    projectRoot: string,
    options: Option<Options>,
    hostRoot: Option<string>,
    aliases: seq<AliasRegistration>)

  datatype Project = Project(
    projectId: string,
    canonicalProjectPath: string,
    options: Options,
    hostRoot: Option<string>,
    aliases: seq<Alias>)

  datatype Selector = Selector(
    clientType: Option<string>,
    clientId: Option<string>,
    environmentId: Option<string>,
    hostKind: Option<HostKind>)

  /** The path service's project root normalization, whatever it is. */
  type Normalizer = (string, Options) -> Result<string>

  type Registry = map<string, Project>

  // ----- Creating an alias -----

  predicate IsNative(kind: HostKind) {
    kind in {PosixHost, Win32Host, WslHost}
  }

  function RequireText(value: string): Result<()> {
    if value == "" then Err(InvalidPath) else if '\0' in value then Err(NulByte) else Ok(())
  }

  function ChosenKind(registration: AliasRegistration, project: Options): HostKind {
    if registration.hostKind.Some? then registration.hostKind.value
    else if registration.options.Some? && registration.options.value.sourceHost.Some? then
      registration.options.value.sourceHost.value
    else if project.sourceHost.Some? && IsNative(project.sourceHost.value) then project.sourceHost.value
    else PosixHost
  }

  /** An alias's own options replace the project's; it inherits them only within one native grammar. */
  function BaseOptions(registration: AliasRegistration, project: Options): Options {
    if registration.options.Some? then registration.options.value
    else if project.sourceHost == Some(ChosenKind(registration, project)) then project
    else NoOptions
  }

  function NativeAliasOptions(registration: AliasRegistration, project: Options): Result<(HostKind, Options)> {
    var kind := ChosenKind(registration, project);
    var requested := if registration.options.Some? then registration.options.value.sourceHost else None;
    if !IsNative(kind) || (requested.Some? && requested != Some(kind)) then Err(InvalidPath)
    else
      var options := BaseOptions(registration, project).(sourceHost := Some(kind));
      if options.trimOuterWhitespace == Some(true) then Err(InvalidPath)
      else if kind == WslHost && !WslEnabled(options) then Err(InvalidPath)
      else Ok((kind, options))
  }

  predicate WslEnabled(options: Options) {
    options.wsl.Some? && options.wsl.value.enabled == Some(true)
  }

  /** Absolute in its host's own grammar and free of dot segments; a backslash separates only on Windows. */
  predicate IsPlainNativeRoot(kind: HostKind, hostRoot: string) {
    var root := if kind == Win32Host then Normalize.Replace(hostRoot, '\\', '/') else hostRoot;
    var absolute := if kind == Win32Host then HasDriveRoot(root) || "//" <= root
      else "/" <= root && (!("//" <= root) || "///" <= root);
    absolute && NoDotParts(root)
  }

  predicate NoDotParts(text: string) {
    forall i :: 0 <= i < |Split(text)| ==> !IsDots(Split(text)[i])
  }

  function CreateAlias(normalize: Normalizer, project: Project, registration: AliasRegistration): Result<Alias> {
    var _ :- RequireText(registration.clientType);
    var _ :- RequireText(registration.clientId);
    var _ :- RequireText(registration.environmentId);
    var _ :- RequireText(registration.hostRoot);
    var (kind, options) :- NativeAliasOptions(registration, project.options);
    if !IsPlainNativeRoot(kind, registration.hostRoot) then Err(InvalidPath)
    else
      var canonical :- normalize(registration.hostRoot, options);
      if canonical != project.canonicalProjectPath then Err(InvalidPath)
      else Ok(Alias(project.projectId, project.canonicalProjectPath, registration.clientType, registration.clientId,
                    registration.environmentId, kind, registration.hostRoot, options, registration.labelText))
  }

  // ----- Keys -----

  function Key(clientType: string, clientId: string, environmentId: string): string {
    clientType + "\0" + clientId + "\0" + environmentId
  }

  function AliasKey(alias: Alias): string {
    Key(alias.clientType, alias.clientId, alias.environmentId)
  }

  /** A key determines its three parts. */
  lemma KeyIsInjective(t: string, c: string, e: string, t': string, c': string, e': string)
    requires '\0' !in t && '\0' !in c && '\0' !in t' && '\0' !in c'
    requires Key(t, c, e) == Key(t', c', e')
    ensures t == t' && c == c' && e == e'
  {
    assert Key(t, c, e) == t + "\0" + (c + "\0" + e);
    assert Key(t', c', e') == t' + "\0" + (c' + "\0" + e');
    FirstMark('\0', t, c + "\0" + e, t', c' + "\0" + e');
    FirstMark('\0', c, e, c', e');
  }

  // ----- Adding aliases and projects -----

  predicate HoldsKey(aliases: seq<Alias>, key: string) {
    exists i :: 0 <= i < |aliases| && AliasKey(aliases[i]) == key
  }

  function AddAlias(normalize: Normalizer, project: Project, registration: AliasRegistration): Result<Project> {
    var alias :- CreateAlias(normalize, project, registration);
    if HoldsKey(project.aliases, AliasKey(alias)) then Err(InvalidPath)
    else Ok(project.(aliases := project.aliases + [alias]))
  }

  function AddAll(normalize: Normalizer, project: Project, registrations: seq<AliasRegistration>): Result<Project> {
    if registrations == [] then Ok(project)
    else
      var earlier :- AddAll(normalize, project, registrations[..|registrations| - 1]);
      AddAlias(normalize, earlier, registrations[|registrations| - 1])
  }

  function ProjectOptions(registration: ProjectRegistration): Options {
    var options := if registration.options.Some? then registration.options.value else NoOptions;
    options.(sourceHost := if options.sourceHost.Some? then options.sourceHost else Some(PosixHost))
  }

  function GatewayRegistration(hostRoot: string, options: Options): AliasRegistration {
    AliasRegistration("gateway", "default", "default", options.sourceHost, hostRoot, Some(options), Some("default host root"))
  }

  function WithGateway(normalize: Normalizer, project: Project): Result<Project> {
    if project.hostRoot.None? then Ok(project)
    else if project.options.sourceHost.None? || !IsNative(project.options.sourceHost.value) then Err(InvalidPath)
    else AddAlias(normalize, project, GatewayRegistration(project.hostRoot.value, project.options))
  }

  function NewProject(normalize: Normalizer, registration: ProjectRegistration): Result<Project> {
    var _ :- RequireText(registration.projectId);
    var options := ProjectOptions(registration);
    var canonical :- normalize(registration.projectRoot, options);
    var hosted :- WithGateway(normalize, Project(registration.projectId, canonical, options, registration.hostRoot, []));
    AddAll(normalize, hosted, registration.aliases)
  }

  // ----- What every project keeps -----

  predicate Admitted(value: string) {
    value != "" && '\0' !in value
  }

  predicate AliasIsSound(normalize: Normalizer, project: Project, alias: Alias) {
    && alias.projectId == project.projectId && alias.canonicalProjectPath == project.canonicalProjectPath
    && Admitted(alias.clientType) && Admitted(alias.clientId) && Admitted(alias.environmentId) && Admitted(alias.hostRoot)
    && IsNative(alias.hostKind) && alias.options.sourceHost == Some(alias.hostKind)
    && alias.options.trimOuterWhitespace != Some(true)
    && (alias.hostKind == WslHost ==> WslEnabled(alias.options))
    && IsPlainNativeRoot(alias.hostKind, alias.hostRoot)
    && normalize(alias.hostRoot, alias.options) == Ok(project.canonicalProjectPath)
  }

  /** The alias that stands for a project's own host root. */
  predicate IsGateway(project: Project, alias: Alias) {
    && Some(alias.hostRoot) == project.hostRoot && alias.options == project.options
    && alias.clientType == "gateway" && alias.clientId == "default" && alias.environmentId == "default"
    && alias.labelText == Some("default host root")
  }

  ghost predicate ProjectIsSound(normalize: Normalizer, project: Project) {
    && Admitted(project.projectId)
    && (forall i :: 0 <= i < |project.aliases| ==> AliasIsSound(normalize, project, project.aliases[i]))
    && (forall i, j :: 0 <= i < j < |project.aliases| ==> AliasKey(project.aliases[i]) != AliasKey(project.aliases[j]))
    && (project.hostRoot.Some? ==> project.aliases != [] && IsGateway(project, project.aliases[0]))
  }

  /** What creation lets through. */
  lemma CreatedAliasIsSound(normalize: Normalizer, project: Project, registration: AliasRegistration)
    ensures var result := CreateAlias(normalize, project, registration);
      result.Ok? ==> AliasIsSound(normalize, project, result.value)
  {
  }

  /** An alias read back as a registration. */
  function Replayed(alias: Alias): AliasRegistration {
    AliasRegistration(alias.clientType, alias.clientId, alias.environmentId, Some(alias.hostKind), alias.hostRoot,
                      Some(alias.options), alias.labelText)
  }

  /** A sound alias is exactly one that its own registration creates again. */
  lemma SoundIffReplayed(normalize: Normalizer, project: Project, alias: Alias)
    ensures AliasIsSound(normalize, project, alias) <==> CreateAlias(normalize, project, Replayed(alias)) == Ok(alias)
  {
    hide IsPlainNativeRoot;
    if AliasIsSound(normalize, project, alias) {
      assert alias.options.(sourceHost := Some(alias.hostKind)) == alias.options;
    } else if CreateAlias(normalize, project, Replayed(alias)) == Ok(alias) {
      CreatedAliasIsSound(normalize, project, Replayed(alias));
    }
  }

  ghost predicate SameParts(alias: Alias, clientType: string, clientId: string, environmentId: string) {
    alias.clientType == clientType && alias.clientId == clientId && alias.environmentId == environmentId
  }

  /** A sound project holds a key exactly when one of its aliases has the same three parts. */
  lemma HeldKeyMeansSameParts(normalize: Normalizer, project: Project, t: string, c: string, e: string)
    requires ProjectIsSound(normalize, project) && Admitted(t) && Admitted(c)
    ensures HoldsKey(project.aliases, Key(t, c, e)) <==>
      exists i :: 0 <= i < |project.aliases| && SameParts(project.aliases[i], t, c, e)
  {
    hide Key, IsPlainNativeRoot;
    forall i | 0 <= i < |project.aliases| && AliasKey(project.aliases[i]) == Key(t, c, e)
      ensures SameParts(project.aliases[i], t, c, e)
    {
      var alias := project.aliases[i];
      assert AliasIsSound(normalize, project, alias);
      KeyIsInjective(alias.clientType, alias.clientId, alias.environmentId, t, c, e);
    }
  }

  /** A registration that creates an alias is refused as a duplicate exactly when some alias has the same three parts. */
  lemma RefusedExactlyAsDuplicate(normalize: Normalizer, project: Project, registration: AliasRegistration)
    requires ProjectIsSound(normalize, project) && CreateAlias(normalize, project, registration).Ok?
    ensures AddAlias(normalize, project, registration).Err? <==>
      exists i :: 0 <= i < |project.aliases|
        && SameParts(project.aliases[i], registration.clientType, registration.clientId, registration.environmentId)
  {
    hide ProjectIsSound, HoldsKey, Key, IsPlainNativeRoot;
    CreatedAliasIsSound(normalize, project, registration);
    HeldKeyMeansSameParts(normalize, project, registration.clientType, registration.clientId, registration.environmentId);
  }

  lemma AddKeepsSound(normalize: Normalizer, project: Project, registration: AliasRegistration)
    requires ProjectIsSound(normalize, project)
    ensures var result := AddAlias(normalize, project, registration);
      result.Ok? ==>
        && ProjectIsSound(normalize, result.value) && project.aliases <= result.value.aliases
        && result.value.(aliases := project.aliases) == project
  {
    hide CreateAlias, AliasKey, IsPlainNativeRoot;
    var result := AddAlias(normalize, project, registration);
    if result.Ok? {
      CreatedAliasIsSound(normalize, project, registration);
      var grown := result.value;
      forall i | 0 <= i < |grown.aliases| ensures AliasIsSound(normalize, grown, grown.aliases[i]) {
        var owner := if i < |project.aliases| then project.aliases[i] else grown.aliases[i];
        assert AliasIsSound(normalize, project, owner);
      }
    }
  }

  lemma {:induction false} AddAllKeepsSound(normalize: Normalizer, project: Project, registrations: seq<AliasRegistration>)
    requires ProjectIsSound(normalize, project)
    ensures var result := AddAll(normalize, project, registrations);
      result.Ok? ==>
        && ProjectIsSound(normalize, result.value)
        && |result.value.aliases| == |project.aliases| + |registrations|
        && project.aliases <= result.value.aliases && result.value.(aliases := project.aliases) == project
  {
    hide AddAlias, ProjectIsSound;
    if registrations != [] {
      var init, last := registrations[..|registrations| - 1], registrations[|registrations| - 1];
      AddAllKeepsSound(normalize, project, init);
      var earlier := AddAll(normalize, project, init);
      if earlier.Ok? {
        AddKeepsSound(normalize, earlier.value, last);
        AddAppendsOne(normalize, earlier.value, last);
      }
    }
  }

  lemma AddAllStep(normalize: Normalizer, project: Project, registrations: seq<AliasRegistration>, i: nat)
    requires i < |registrations|
    ensures var earlier := AddAll(normalize, project, registrations[..i]);
      AddAll(normalize, project, registrations[..i + 1])
      == if earlier.Ok? then AddAlias(normalize, earlier.value, registrations[i]) else earlier
  {
    assert registrations[..i + 1][..i] == registrations[..i];
  }

  /** The first failure decides. */
  lemma {:induction false} AddAllStops(normalize: Normalizer, project: Project, registrations: seq<AliasRegistration>, i: nat)
    requires i <= |registrations| && AddAll(normalize, project, registrations[..i]).Err?
    ensures AddAll(normalize, project, registrations) == AddAll(normalize, project, registrations[..i])
    decreases |registrations| - i
  {
    if i == |registrations| {
      assert registrations[..i] == registrations;
    } else {
      AddAllStep(normalize, project, registrations, i);
      AddAllStops(normalize, project, registrations, i + 1);
    }
  }

  lemma AddAppendsOne(normalize: Normalizer, project: Project, registration: AliasRegistration)
    ensures var result := AddAlias(normalize, project, registration);
      result.Ok? ==>
        && |result.value.aliases| == |project.aliases| + 1
        && result.value.aliases[..|project.aliases|] == project.aliases
        && result.value.projectId == project.projectId
        && CreateAlias(normalize, project, registration) == Ok(result.value.aliases[|project.aliases|])
  {
    hide CreateAlias;
  }

  lemma GatewayIsFirst(normalize: Normalizer, project: Project)
    requires Admitted(project.projectId) && project.aliases == []
    ensures var result := WithGateway(normalize, project);
      result.Ok? ==> ProjectIsSound(normalize, result.value) && result.value.(aliases := []) == project
  {
    hide IsPlainNativeRoot;
    if project.hostRoot.Some? && WithGateway(normalize, project).Ok? {
      var registration := GatewayRegistration(project.hostRoot.value, project.options);
      CreatedAliasIsSound(normalize, project, registration);
      assert project.options.(sourceHost := project.options.sourceHost) == project.options;
    }
  }

  /** A new project is sound and its path is what its own root normalizes to. */
  lemma NewProjectIsSound(normalize: Normalizer, registration: ProjectRegistration)
    ensures var result := NewProject(normalize, registration);
      result.Ok? ==>
        && ProjectIsSound(normalize, result.value)
        && result.value.projectId == registration.projectId
        && normalize(registration.projectRoot, result.value.options) == Ok(result.value.canonicalProjectPath)
  {
    hide WithGateway, AddAll, ProjectIsSound;
    var options := ProjectOptions(registration);
    var canonical := normalize(registration.projectRoot, options);
    if NewProject(normalize, registration).Ok? {
      var bare := Project(registration.projectId, canonical.value, options, registration.hostRoot, []);
      GatewayIsFirst(normalize, bare);
      AddAllKeepsSound(normalize, WithGateway(normalize, bare).value, registration.aliases);
    }
  }

  // ----- Replaying a project's aliases -----

  function ReplayedAll(aliases: seq<Alias>): (r: seq<AliasRegistration>)
    ensures |r| == |aliases|
  {
    seq(|aliases|, i requires 0 <= i < |aliases| => Replayed(aliases[i]))
  }

  /** A sound project is rebuilt from its own alias list. */
  lemma {:induction false} AliasesReplay(normalize: Normalizer, project: Project, n: nat)
    requires ProjectIsSound(normalize, project) && n <= |project.aliases|
    ensures AddAll(normalize, project.(aliases := []), ReplayedAll(project.aliases[..n]))
      == Ok(project.(aliases := project.aliases[..n]))
  {
    hide CreateAlias, AliasIsSound, AliasKey, Replayed;
    var bare := project.(aliases := []);
    var all := ReplayedAll(project.aliases[..n]);
    if n > 0 {
      AliasesReplay(normalize, project, n - 1);
      var alias, earlier := project.aliases[n - 1], project.(aliases := project.aliases[..n - 1]);
      assert all[..n - 1] == ReplayedAll(project.aliases[..n - 1]) && all[n - 1] == Replayed(alias);
      SoundIffReplayed(normalize, project, alias);
      OwnersAgree(normalize, project, earlier, Replayed(alias));
      assert project.aliases[..n] == earlier.aliases + [alias];
    }
  }

  /** Creation does not look at the aliases already there. */
  lemma OwnersAgree(normalize: Normalizer, p: Project, q: Project, registration: AliasRegistration)
    requires p.(aliases := q.aliases) == q
    ensures CreateAlias(normalize, p, registration) == CreateAlias(normalize, q, registration)
  {
    hide IsPlainNativeRoot;
  }

  // ----- Runs of the registry -----

  datatype Call =
    | RegisterProject(project: ProjectRegistration)
    | RegisterPathAlias(projectId: string, alias: AliasRegistration)

  /** A call's new registry; a failed call leaves the old one. */
  function After(normalize: Normalizer, registry: Registry, call: Call): Registry {
    match call
    case RegisterProject(registration) => (
      match NewProject(normalize, registration)
      case Ok(project) => registry[project.projectId := project]
      case Err(_) => registry)
    case RegisterPathAlias(projectId, registration) => (
      if projectId !in registry then registry
      else
        match AddAlias(normalize, registry[projectId], registration)
        case Ok(project) => registry[projectId := project]
        case Err(_) => registry)
  }

  function AfterAll(normalize: Normalizer, registry: Registry, calls: seq<Call>): Registry {
    if calls == [] then registry
    else After(normalize, AfterAll(normalize, registry, calls[..|calls| - 1]), calls[|calls| - 1])
  }

  ghost predicate RegistryIsSound(normalize: Normalizer, registry: Registry) {
    forall id :: id in registry ==> registry[id].projectId == id && ProjectIsSound(normalize, registry[id])
  }

  lemma CallKeepsSound(normalize: Normalizer, registry: Registry, call: Call)
    requires RegistryIsSound(normalize, registry)
    ensures RegistryIsSound(normalize, After(normalize, registry, call))
  {
    hide NewProject, AddAlias, ProjectIsSound;
    match call
    case RegisterProject(registration) => NewProjectIsSound(normalize, registration);
    case RegisterPathAlias(projectId, registration) =>
      if projectId in registry {
        AddKeepsSound(normalize, registry[projectId], registration);
      }
  }

  /** What registering an alias does, in one step. */
  lemma AfterAlias(normalize: Normalizer, registry: Registry, id: string, registration: AliasRegistration)
    requires id in registry && RegistryIsSound(normalize, registry)
    ensures var result := AddAlias(normalize, registry[id], registration);
      && After(normalize, registry, RegisterPathAlias(id, registration))
        == (if result.Ok? then registry[id := result.value] else registry)
      && (result.Ok? ==>
        && RegistryIsSound(normalize, registry[id := result.value])
        && |result.value.aliases| == |registry[id].aliases| + 1
        && result.value.aliases[..|registry[id].aliases|] == registry[id].aliases)
  {
    hide AddAlias, RegistryIsSound;
    CallKeepsSound(normalize, registry, RegisterPathAlias(id, registration));
    AddAppendsOne(normalize, registry[id], registration);
  }

  lemma SoundToo(normalize: Normalizer, registry: Registry, project: Project)
    requires RegistryIsSound(normalize, registry) && ProjectIsSound(normalize, project)
    ensures RegistryIsSound(normalize, registry[project.projectId := project])
  {
    hide ProjectIsSound;
  }

  /** What registering a project does, in one step. */
  lemma AfterProject(normalize: Normalizer, registry: Registry, registration: ProjectRegistration)
    ensures var result := NewProject(normalize, registration);
      && After(normalize, registry, RegisterProject(registration))
        == (if result.Ok? then registry[registration.projectId := result.value] else registry)
      && (result.Ok? ==> ProjectIsSound(normalize, result.value) && result.value.projectId == registration.projectId)
  {
    hide NewProject, ProjectIsSound;
    NewProjectIsSound(normalize, registration);
  }

  lemma {:induction false} RunsStaySound(normalize: Normalizer, registry: Registry, calls: seq<Call>)
    requires RegistryIsSound(normalize, registry)
    ensures RegistryIsSound(normalize, AfterAll(normalize, registry, calls))
  {
    if calls != [] {
      RunsStaySound(normalize, registry, calls[..|calls| - 1]);
      CallKeepsSound(normalize, AfterAll(normalize, registry, calls[..|calls| - 1]), calls[|calls| - 1]);
    }
  }

  // ----- Selecting an alias -----

  predicate Selects(selector: Selector, alias: Alias) {
    && (selector.clientType.Some? ==> alias.clientType == selector.clientType.value)
    && (selector.clientId.Some? ==> alias.clientId == selector.clientId.value)
    && (selector.environmentId.Some? ==> alias.environmentId == selector.environmentId.value)
    && (selector.hostKind.Some? ==> alias.hostKind == selector.hostKind.value)
  }

  function Selection(aliases: seq<Alias>, selector: Selector): (r: seq<Alias>)
    ensures forall i :: 0 <= i < |r| ==> r[i] in aliases && Selects(selector, r[i])
  {
    if aliases == [] then []
    else
      var earlier, last := Selection(aliases[..|aliases| - 1], selector), aliases[|aliases| - 1];
      if Selects(selector, last) then earlier + [last] else earlier
  }

  function GetPathAlias(project: Project, selector: Selector): Result<Alias> {
    var selection := Selection(project.aliases, selector);
    if |selection| == 1 then Ok(selection[0]) else Err(InvalidPath)
  }

  const Anything := Selector(None, None, None, None)

  function ResolveHostRoot(project: Project, selector: Selector): Result<Option<string>> {
    if selector == Anything then
      Ok(if project.hostRoot.Some? then project.hostRoot
         else if |project.aliases| == 1 then Some(project.aliases[0].hostRoot)
         else None)
    else
      var alias :- GetPathAlias(project, selector);
      Ok(Some(alias.hostRoot))
  }

  lemma {:induction false} SelectionIsEmpty(aliases: seq<Alias>, selector: Selector)
    requires forall i :: 0 <= i < |aliases| ==> !Selects(selector, aliases[i])
    ensures Selection(aliases, selector) == []
  {
    if aliases != [] {
      SelectionIsEmpty(aliases[..|aliases| - 1], selector);
    }
  }

  lemma {:induction false} SelectionIsOne(aliases: seq<Alias>, selector: Selector, k: nat)
    requires k < |aliases| && Selects(selector, aliases[k])
    requires forall i :: 0 <= i < |aliases| && i != k ==> !Selects(selector, aliases[i])
    ensures Selection(aliases, selector) == [aliases[k]]
  {
    var init := aliases[..|aliases| - 1];
    if k == |init| {
      SelectionIsEmpty(init, selector);
    } else {
      SelectionIsOne(init, selector, k);
    }
  }

  /** Client, client instance and environment together always name one alias. */
  lemma FullSelectorFindsIt(normalize: Normalizer, project: Project, k: nat)
    requires ProjectIsSound(normalize, project) && k < |project.aliases|
    ensures var alias := project.aliases[k];
      GetPathAlias(project, Selector(Some(alias.clientType), Some(alias.clientId), Some(alias.environmentId), None))
      == Ok(alias)
  {
    hide IsPlainNativeRoot;
    var alias := project.aliases[k];
    var selector := Selector(Some(alias.clientType), Some(alias.clientId), Some(alias.environmentId), None);
    forall i | 0 <= i < |project.aliases| && i != k ensures !Selects(selector, project.aliases[i]) {
      assert AliasKey(project.aliases[i]) != AliasKey(alias);
    }
    SelectionIsOne(project.aliases, selector, k);
  }

  /** Every host root the registry hands out is a native text for the project's own canonical path. */
  lemma ResolvedRootDenotesProject(normalize: Normalizer, project: Project, selector: Selector)
    requires ProjectIsSound(normalize, project)
    ensures var result := ResolveHostRoot(project, selector);
      result.Ok? && result.value.Some? ==>
        exists i :: 0 <= i < |project.aliases| && project.aliases[i].hostRoot == result.value.value
          && normalize(result.value.value, project.aliases[i].options) == Ok(project.canonicalProjectPath)
  {
    hide IsPlainNativeRoot;
    var result := ResolveHostRoot(project, selector);
    if result.Ok? && result.value.Some? {
      var alias: Alias;
      if selector == Anything {
        alias := project.aliases[0];
      } else {
        alias := Selection(project.aliases, selector)[0];
      }
      assert alias in project.aliases;
      var i :| 0 <= i < |project.aliases| && project.aliases[i] == alias;
      assert AliasIsSound(normalize, project, project.aliases[i]);
    }
  }

  // ----- The rules by cases -----

  lemma TextExactly(value: string)
    ensures RequireText(value) ==
      if |value| == 0 then Err(InvalidPath)
      else if exists i :: 0 <= i < |value| && value[i] as int == 0 then Err(NulByte)
      else Ok(())
  {
  }

  ghost predicate Contains(text: string, piece: string) {
    exists i :: HasAt(text, piece, i)
  }

  predicate HasAt(text: string, piece: string, i: int) {
    0 <= i && i + |piece| <= |text| && text[i..i + |piece|] == piece
  }

  /** A slash-free text is a component exactly when it stands between two slashes of the padded text. */
  lemma ComponentsBetweenSlashes(text: string, part: string)
    requires '/' !in part
    ensures part in Split(text) <==> Contains("/" + text + "/", "/" + part + "/")
  {
    hide Split;
    var padded, piece := "/" + text + "/", "/" + part + "/";
    if part in Split(text) {
      var a, b := AroundComponent(text, part);
      assert padded[|a|..|a| + |piece|] == piece;
      assert HasAt(padded, piece, |a|);
    }
    if i :| HasAt(padded, piece, i) {
      assert padded == padded[..i] + piece + padded[i + |piece|..];
      ComponentAt(text, part, padded[..i], padded[i + |piece|..]);
    }
  }

  lemma AroundComponent(text: string, part: string) returns (a: string, b: string)
    requires part in Split(text)
    ensures "/" + text + "/" == a + ("/" + part + "/") + b
  {
    hide Split, Join;
    var parts := Split(text);
    var i :| 0 <= i < |parts| && parts[i] == part;
    JoinOfSplit(text);
    var left, right := parts[..i], parts[i + 1..];
    assert parts == left + ([part] + right);
    b := JoinFrom(part, right);
    a := JoinBefore(left, [part] + right, part + "/" + b);
    assert a + "/" + (part + "/" + b) == a + ("/" + part + "/") + b;
  }

  lemma JoinFrom(part: string, right: seq<string>) returns (b: string)
    ensures Join([part] + right) + "/" == part + "/" + b
  {
    hide Join;
    JoinOfOne(part);
    if right == [] {
      assert [part] + right == [part];
      b := "";
    } else {
      JoinAppend([part], right);
      b := Join(right) + "/";
      assert part + "/" + Join(right) + "/" == part + "/" + b;
    }
  }

  lemma JoinBefore(left: seq<string>, tail: seq<string>, rest: string) returns (a: string)
    requires tail != [] && Join(tail) + "/" == rest
    ensures "/" + Join(left + tail) + "/" == a + "/" + rest
  {
    hide Join;
    if left == [] {
      assert left + tail == tail;
      a := "";
      assert "/" + Join(tail) + "/" == "/" + (Join(tail) + "/");
    } else {
      JoinAppend(left, tail);
      a := "/" + Join(left);
      assert "/" + (Join(left) + "/" + Join(tail)) + "/" == "/" + Join(left) + "/" + (Join(tail) + "/");
    }
  }

  lemma JoinOfOne(part: string)
    ensures Join([part]) == part
  {
  }

  lemma ComponentAt(text: string, part: string, a: string, b: string)
    requires '/' !in part && "/" + text + "/" == a + ("/" + part + "/") + b
    ensures part in Split(text)
  {
    hide Split;
    var padded := "/" + text + "/";
    assert a != "" ==> a[0] == padded[0] == '/';
    assert b != "" ==> b[|b| - 1] == padded[|padded| - 1] == '/';
    SplitOfPlain(part);
    var start := if a == "" then "" else a[1..] + "/";
    var end := if b == "" then "" else "/" + b[..|b| - 1];
    assert text == padded[1..|padded| - 1];
    assert text == start + part + end;
    if b == "" {
      if a == "" {
        assert text == part;
      } else {
        assert text == a[1..] + "/" + part;
        SplitAppend(a[1..], part);
        assert (Split(a[1..]) + [part])[|Split(a[1..])|] == part;
      }
    } else {
      var after := b[..|b| - 1];
      SplitAfterSlash(part, after);
      if a == "" {
        assert text == part + "/" + after;
      } else {
        assert text == a[1..] + "/" + (part + "/" + after);
        SplitAppend(a[1..], part + "/" + after);
        assert (Split(a[1..]) + Split(part + "/" + after))[|Split(a[1..])|] == part;
      }
    }
  }

  /** No component of the text is a single or a double dot. */
  ghost predicate HasNoDots(text: string) {
    !Contains("/" + text + "/", "/./") && !Contains("/" + text + "/", "/../")
  }

  lemma NoDotsExactly(text: string)
    ensures NoDotParts(text) <==> HasNoDots(text)
  {
    hide Split, Contains;
    ComponentsBetweenSlashes(text, ".");
    ComponentsBetweenSlashes(text, "..");
    assert "/" + "." + "/" == "/./" && "/" + ".." + "/" == "/../";
  }

  predicate IsAnySlash(c: char) {
    c == '/' || c == '\\'
  }

  /** A text with forward slashes for both kinds. */
  ghost predicate IsSlashed(slashed: string, text: string) {
    |slashed| == |text| && forall i :: 0 <= i < |text| ==> slashed[i] == if IsAnySlash(text[i]) then '/' else text[i]
  }

  /**
   * Which host roots are plain. On Windows a drive or two leading separators of either kind, elsewhere one or at least
   * three leading slashes; and no dot component, by the separators of the host.
   */
  lemma PlainRootExactly(kind: HostKind, hostRoot: string, slashed: string)
    requires IsSlashed(slashed, hostRoot)
    ensures kind == Win32Host ==> (IsPlainNativeRoot(kind, hostRoot) <==> StartsWindows(hostRoot) && HasNoDots(slashed))
    ensures kind != Win32Host ==> (IsPlainNativeRoot(kind, hostRoot) <==> StartsPosix(hostRoot) && HasNoDots(hostRoot))
  {
    hide NoDotParts, HasNoDots;
    assert Normalize.Replace(hostRoot, '\\', '/') == slashed;
    NoDotsExactly(slashed);
    NoDotsExactly(hostRoot);
    LeadingSlashes(slashed);
    LeadingSlashes(hostRoot);
    assert StartsWindows(hostRoot) <==> HasDriveRoot(slashed) || "//" <= slashed;
    assert StartsPosix(hostRoot) <==> "/" <= hostRoot && (!("//" <= hostRoot) || "///" <= hostRoot);
  }

  predicate StartsWindows(text: string) {
    || (|text| >= 3 && ('a' <= text[0] <= 'z' || 'A' <= text[0] <= 'Z') && text[1] == ':' && IsAnySlash(text[2]))
    || (|text| >= 2 && IsAnySlash(text[0]) && IsAnySlash(text[1]))
  }

  predicate StartsPosix(text: string) {
    && |text| >= 1 && text[0] == '/'
    && (|text| >= 2 && text[1] == '/' ==> |text| >= 3 && text[2] == '/')
  }

  lemma LeadingSlashes(text: string)
    ensures "/" <= text <==> |text| >= 1 && text[0] == '/'
    ensures "//" <= text <==> |text| >= 2 && text[0] == '/' && text[1] == '/'
    ensures "///" <= text <==> |text| >= 3 && text[0] == '/' && text[1] == '/' && text[2] == '/'
  {
  }

  /** The source host a registration names in its own options. */
  function Requested(registration: AliasRegistration): Option<HostKind> {
    if registration.options.Some? then registration.options.value.sourceHost else None
  }

  /**
   * The host kind is the registration's own, then the one its options name, then the project's if that is native, then
   * POSIX; it must be native, and its options must not name another.
   */
  lemma KindExactly(registration: AliasRegistration, project: Options, kind: HostKind)
    ensures ChosenKind(registration, project) == kind <==>
      || registration.hostKind == Some(kind)
      || (registration.hostKind == None && Requested(registration) == Some(kind))
      || (registration.hostKind == None && Requested(registration) == None && project.sourceHost == Some(kind)
          && (kind == PosixHost || kind == Win32Host || kind == WslHost))
      || (registration.hostKind == None && Requested(registration) == None && kind == PosixHost
          && project.sourceHost !in {Some(PosixHost), Some(Win32Host), Some(WslHost)})
  {
  }

  /** When an alias gets options, and which: its own, the project's within one native grammar, or none, with its host set. */
  lemma AliasOptionsExactly(registration: AliasRegistration, project: Options, kind: HostKind)
    requires ChosenKind(registration, project) == kind
    ensures var own := registration.options;
      var base := if own.Some? then own.value else if project.sourceHost == Some(kind) then project else NoOptions;
      var result := NativeAliasOptions(registration, project);
      && (result.Ok? <==>
            && (kind == PosixHost || kind == Win32Host || kind == WslHost)
            && Requested(registration) in {None, Some(kind)} && base.trimOuterWhitespace != Some(true)
            && (kind == WslHost ==> base.wsl.Some? && base.wsl.value.enabled == Some(true)))
      && (result.Ok? ==> result.value == (kind, base.(sourceHost := Some(kind))))
      && (result.Err? ==> result.code == InvalidPath)
  {
  }

  /** When an alias is created, and with which fields. */
  lemma CreatesExactly(normalize: Normalizer, project: Project, registration: AliasRegistration)
    ensures var result := CreateAlias(normalize, project, registration);
      var native := NativeAliasOptions(registration, project.options);
      && (result.Ok? <==>
            && Admitted(registration.clientType) && Admitted(registration.clientId)
            && Admitted(registration.environmentId) && Admitted(registration.hostRoot)
            && native.Ok? && IsPlainNativeRoot(native.value.0, registration.hostRoot)
            && normalize(registration.hostRoot, native.value.1) == Ok(project.canonicalProjectPath))
      && (result.Ok? ==>
            && result.value.projectId == project.projectId
            && result.value.canonicalProjectPath == project.canonicalProjectPath
            && result.value.clientType == registration.clientType && result.value.clientId == registration.clientId
            && result.value.environmentId == registration.environmentId && result.value.hostRoot == registration.hostRoot
            && result.value.labelText == registration.labelText
            && (result.value.hostKind, result.value.options) == native.value)
  {
    hide NativeAliasOptions, IsPlainNativeRoot;
  }

  /** The options of a new project: its own, with POSIX for a missing source host; its host root is kept. */
  lemma ProjectExactly(normalize: Normalizer, registration: ProjectRegistration)
    ensures var result := NewProject(normalize, registration);
      result.Ok? ==>
        && result.value.hostRoot == registration.hostRoot
        && (registration.options.None? ==> result.value.options == NoOptions.(sourceHost := Some(PosixHost)))
        && (registration.options.Some? ==>
              && result.value.options == registration.options.value.(sourceHost := result.value.options.sourceHost)
              && result.value.options.sourceHost ==
                   if registration.options.value.sourceHost == None then Some(PosixHost)
                   else registration.options.value.sourceHost)
        && |result.value.aliases| == |registration.aliases| + if registration.hostRoot.Some? then 1 else 0
  {
    hide WithGateway, AddAll, ProjectIsSound;
    var options := ProjectOptions(registration);
    var canonical := normalize(registration.projectRoot, options);
    if NewProject(normalize, registration).Ok? {
      var bare := Project(registration.projectId, canonical.value, options, registration.hostRoot, []);
      GatewayIsFirst(normalize, bare);
      GatewayIsOne(normalize, bare);
      AddAllKeepsSound(normalize, WithGateway(normalize, bare).value, registration.aliases);
    }
  }

  lemma GatewayIsOne(normalize: Normalizer, project: Project)
    requires project.aliases == []
    ensures WithGateway(normalize, project).Ok? ==>
      |WithGateway(normalize, project).value.aliases| == if project.hostRoot.Some? then 1 else 0
  {
    hide CreateAlias;
  }

  lemma SelectsExactly(selector: Selector, alias: Alias)
    ensures Selects(selector, alias) <==>
      && selector.clientType in {None, Some(alias.clientType)} && selector.clientId in {None, Some(alias.clientId)}
      && selector.environmentId in {None, Some(alias.environmentId)} && selector.hostKind in {None, Some(alias.hostKind)}
  {
  }

  lemma {:induction false} TwoSelected(aliases: seq<Alias>, selector: Selector, i: nat, j: nat)
    requires i < j < |aliases| && Selects(selector, aliases[i]) && Selects(selector, aliases[j])
    ensures |Selection(aliases, selector)| >= 2
  {
    hide Selects;
    var init := aliases[..|aliases| - 1];
    if j < |init| {
      TwoSelected(init, selector, i, j);
    } else {
      OneSelected(init, selector, i);
    }
  }

  lemma {:induction false} OneSelected(aliases: seq<Alias>, selector: Selector, i: nat)
    requires i < |aliases| && Selects(selector, aliases[i])
    ensures |Selection(aliases, selector)| >= 1
  {
    hide Selects;
    if i < |aliases| - 1 {
      OneSelected(aliases[..|aliases| - 1], selector, i);
    }
  }

  /** An alias is found exactly when it is the only one selected; none and several are refused alike. */
  lemma FoundExactly(project: Project, selector: Selector, alias: Alias)
    ensures GetPathAlias(project, selector) == Ok(alias) <==>
      exists k :: 0 <= k < |project.aliases| && project.aliases[k] == alias && OnlySelected(project.aliases, selector, k)
    ensures GetPathAlias(project, selector).Err? ==> GetPathAlias(project, selector).code == InvalidPath
  {
    hide Selects;
    if k :| 0 <= k < |project.aliases| && project.aliases[k] == alias && OnlySelected(project.aliases, selector, k) {
      SelectionIsOne(project.aliases, selector, k);
    }
    if GetPathAlias(project, selector) == Ok(alias) {
      var found := Selection(project.aliases, selector)[0];
      var k :| 0 <= k < |project.aliases| && project.aliases[k] == found;
      forall i | 0 <= i < |project.aliases| && i != k ensures !Selects(selector, project.aliases[i]) {
        if Selects(selector, project.aliases[i]) {
          TwoSelected(project.aliases, selector, if i < k then i else k, if i < k then k else i);
        }
      }
    }
  }

  ghost predicate OnlySelected(aliases: seq<Alias>, selector: Selector, k: nat)
    requires k < |aliases|
  {
    Selects(selector, aliases[k]) && forall i :: 0 <= i < |aliases| && i != k ==> !Selects(selector, aliases[i])
  }

  /** Without a selector a project's own host root is handed out, or its only alias's, or none. */
  lemma ResolvesExactly(project: Project, selector: Selector)
    ensures selector == Anything && project.hostRoot.Some? ==> ResolveHostRoot(project, selector) == Ok(project.hostRoot)
    ensures selector == Anything && project.hostRoot.None? && |project.aliases| == 1 ==>
      ResolveHostRoot(project, selector) == Ok(Some(project.aliases[0].hostRoot))
    ensures selector == Anything && project.hostRoot.None? && |project.aliases| != 1 ==>
      ResolveHostRoot(project, selector) == Ok(None)
    ensures selector != Anything && GetPathAlias(project, selector).Ok? ==>
      ResolveHostRoot(project, selector) == Ok(Some(GetPathAlias(project, selector).value.hostRoot))
    ensures selector != Anything && GetPathAlias(project, selector).Err? ==> ResolveHostRoot(project, selector).Err?
  {
  }
}
