/** The alias broker over mutable records: what it keeps, and what it hands out. */
module AliasBroker {
  import opened Text
  import opened AliasRules

  // ----- Records that callers may hold and rewrite -----

  /** A nested group of options: an object of its own. */
  class Group<T> {
    var fields: T

    constructor (fields: T)
      ensures this.fields == fields
    {
      this.fields := fields;
    }
  }

  class OptionsObject {
    var sourceHost: Option<HostKind>
    var targetProfile: Option<TargetProfile>
    var wsl: Group?<WslGroup>
    var uri: Group?<UriGroup>
    var windows: Group?<WindowsGroup>
    var trimOuterWhitespace: Option<bool>

    ghost function Footprint(): set<object>
      reads this
    {
      {this} + (if wsl == null then {} else {wsl}) + (if uri == null then {} else {uri})
      + (if windows == null then {} else {windows})
    }

    function Value(): Options
      reads this, wsl, uri, windows
    {
      Options(sourceHost, targetProfile, FieldsOf(wsl), FieldsOf(uri), FieldsOf(windows), trimOuterWhitespace)
    }

    constructor (sourceHost: Option<HostKind>, targetProfile: Option<TargetProfile>, wsl: Group?<WslGroup>,
                 uri: Group?<UriGroup>, windows: Group?<WindowsGroup>, trimOuterWhitespace: Option<bool>)
      ensures Value() == Options(sourceHost, targetProfile, FieldsOf(wsl), FieldsOf(uri), FieldsOf(windows), trimOuterWhitespace)
      ensures this.wsl == wsl && this.uri == uri && this.windows == windows
    {
      this.sourceHost, this.targetProfile, this.trimOuterWhitespace := sourceHost, targetProfile, trimOuterWhitespace;
      this.wsl, this.uri, this.windows := wsl, uri, windows;
    }
  }

  function FieldsOf<T>(group: Group?<T>): Option<T>
    reads group
  {
    if group == null then None else Some(group.fields)
  }

  class AliasObject {
    var projectId: string
    var canonicalProjectPath: string
    var clientType: string
    var clientId: string
    var environmentId: string
    var hostKind: HostKind
    var hostRoot: string
    var options: OptionsObject
    var labelText: Option<string>

    function Value(): Alias
      reads this, options, options.wsl, options.uri, options.windows
    {
      Alias(projectId, canonicalProjectPath, clientType, clientId, environmentId, hostKind, hostRoot, options.Value(), labelText)
    }

    ghost function Footprint(): set<object>
      reads this, options
    {
      {this} + options.Footprint()
    }

    constructor (projectId: string, canonicalProjectPath: string, clientType: string, clientId: string,
                 environmentId: string, hostKind: HostKind, hostRoot: string, options: OptionsObject,
                 labelText: Option<string>)
      ensures Value() == Alias(projectId, canonicalProjectPath, clientType, clientId, environmentId, hostKind, hostRoot,
                               options.Value(), labelText)
      ensures this.options == options
    {
      this.projectId, this.canonicalProjectPath := projectId, canonicalProjectPath;
      this.clientType, this.clientId, this.environmentId := clientType, clientId, environmentId;
      this.hostKind, this.hostRoot, this.options, this.labelText := hostKind, hostRoot, options, labelText;
    }
  }

  class ProjectObject {
    var projectId: string
    var canonicalProjectPath: string
    var options: OptionsObject
    var hostRoot: Option<string>
    var aliases: seq<AliasObject>

    constructor (projectId: string, canonicalProjectPath: string, options: OptionsObject, hostRoot: Option<string>,
                 aliases: seq<AliasObject>)
      ensures this.projectId == projectId && this.canonicalProjectPath == canonicalProjectPath
      ensures this.options == options && this.hostRoot == hostRoot && this.aliases == aliases
    {
      this.projectId, this.canonicalProjectPath, this.options := projectId, canonicalProjectPath, options;
      this.hostRoot, this.aliases := hostRoot, aliases;
    }
  }

  /** A registration as a caller passes it: its options are the caller's own object. */
  datatype AliasRequest = AliasRequest(
    clientType: string,
    clientId: string,
    environmentId: string,
    hostKind: Option<HostKind>,
    hostRoot: string,
    options: OptionsObject?,
    labelText: Option<string>)

  datatype ProjectRequest = ProjectRequest(
    projectId: string,
    projectRoot: string,
    options: OptionsObject?,
    hostRoot: Option<string>,
    aliases: seq<AliasRequest>)

  function ValueOrNone(options: OptionsObject?): Option<Options>
    reads options, if options == null then {} else options.Footprint()
  {
    if options == null then None else Some(options.Value())
  }

  function RequestValue(request: AliasRequest): AliasRegistration
    reads request.options, if request.options == null then {} else request.options.Footprint()
  {
    AliasRegistration(request.clientType, request.clientId, request.environmentId, request.hostKind, request.hostRoot,
                      ValueOrNone(request.options), request.labelText)
  }

  // ----- What a record says, and which objects it is made of -----

  ghost predicate OptionsHeld(options: OptionsObject, value: Options, repr: set<object>)
    reads options, repr
  {
    options in repr && options.Footprint() <= repr && options.Value() == value
  }

  ghost predicate AliasHeld(alias: AliasObject, value: Alias, repr: set<object>)
    reads alias, repr
  {
    alias in repr && alias.options in repr && alias.Footprint() <= repr && alias.Value() == value
  }

  ghost predicate AliasesHeld(aliases: seq<AliasObject>, values: seq<Alias>, repr: set<object>)
    reads repr
  {
    && |aliases| == |values|
    && forall i :: 0 <= i < |aliases| ==> aliases[i] in repr && AliasHeld(aliases[i], values[i], repr)
  }

  /** The record says `value`; everything below it, and not the record itself, lies in `repr`. */
  ghost predicate ProjectHeld(project: ProjectObject, value: Project, repr: set<object>)
    reads project, repr
  {
    && project !in repr && project.options in repr
    && project.projectId == value.projectId && project.canonicalProjectPath == value.canonicalProjectPath
    && OptionsHeld(project.options, value.options, repr) && project.hostRoot == value.hostRoot
    && AliasesHeld(project.aliases, value.aliases, repr)
  }

  lemma AliasHeldMore(alias: AliasObject, value: Alias, repr: set<object>, grown: set<object>)
    requires AliasHeld(alias, value, repr) && repr <= grown
    ensures AliasHeld(alias, value, grown)
  {
  }

  lemma AliasesHeldMore(aliases: seq<AliasObject>, values: seq<Alias>, repr: set<object>, grown: set<object>)
    requires AliasesHeld(aliases, values, repr) && repr <= grown
    ensures AliasesHeld(aliases, values, grown)
  {
    hide AliasHeld;
    forall i | 0 <= i < |aliases| ensures aliases[i] in grown && AliasHeld(aliases[i], values[i], grown) {
      AliasHeldMore(aliases[i], values[i], repr, grown);
    }
  }

  lemma AliasesHeldAlso(aliases: seq<AliasObject>, values: seq<Alias>, repr: set<object>, alias: AliasObject, value: Alias,
                        more: set<object>)
    requires AliasesHeld(aliases, values, repr) && AliasHeld(alias, value, more)
    ensures AliasesHeld(aliases + [alias], values + [value], repr + more)
  {
    hide AliasHeld;
    AliasesHeldMore(aliases, values, repr, repr + more);
    AliasHeldMore(alias, value, more, repr + more);
    AliasIsIn(alias, value, more);
  }

  lemma AliasIsIn(alias: AliasObject, value: Alias, repr: set<object>)
    requires AliasHeld(alias, value, repr)
    ensures alias in repr && alias.Value() == value && ObjectKey(alias) == AliasKey(value)
  {
    hide Key;
  }

  lemma ProjectHeldMore(project: ProjectObject, value: Project, repr: set<object>, grown: set<object>)
    requires ProjectHeld(project, value, repr) && repr <= grown && project !in grown
    ensures ProjectHeld(project, value, grown)
  {
    hide AliasesHeld;
    AliasesHeldMore(project.aliases, value.aliases, repr, grown);
  }

  lemma RecordIsApart(project: ProjectObject, value: Project, repr: set<object>)
    requires ProjectHeld(project, value, repr)
    ensures project !in repr && project.projectId == value.projectId
  {
  }

  function ObjectKey(alias: AliasObject): string
    reads alias
  {
    Key(alias.clientType, alias.clientId, alias.environmentId)
  }

  lemma KeysAgree(aliases: seq<AliasObject>, values: seq<Alias>, repr: set<object>, key: string)
    requires AliasesHeld(aliases, values, repr)
    ensures HoldsKey(values, key) <==> exists i :: 0 <= i < |aliases| && ObjectKey(aliases[i]) == key
  {
    hide AliasHeld, AliasKey, ObjectKey;
    forall i | 0 <= i < |aliases| ensures ObjectKey(aliases[i]) == AliasKey(values[i]) {
      AliasIsIn(aliases[i], values[i], repr);
    }
  }

  // ----- Copies -----

  method CopyOptions(options: OptionsObject) returns (r: OptionsObject)
    ensures fresh(r.Footprint()) && r.Value() == options.Value()
  {
    var wsl, uri, windows := null, null, null;
    if options.wsl != null {
      wsl := new Group(options.wsl.fields);
    }
    if options.uri != null {
      uri := new Group(options.uri.fields);
    }
    if options.windows != null {
      windows := new Group(options.windows.fields);
    }
    r := new OptionsObject(options.sourceHost, options.targetProfile, wsl, uri, windows, options.trimOuterWhitespace);
  }

  /** A copy of `base`, or of no options, with its source host set: the spread shares groups, the copy does not. */
  method CopyWithSource(base: OptionsObject?, sourceHost: Option<HostKind>) returns (r: OptionsObject)
    ensures fresh(r.Footprint())
    ensures r.Value() == (if base == null then NoOptions else base.Value()).(sourceHost := sourceHost)
  {
    var shallow: OptionsObject;
    if base == null {
      shallow := new OptionsObject(sourceHost, None, null, null, null, None);
    } else {
      shallow := new OptionsObject(sourceHost, base.targetProfile, base.wsl, base.uri, base.windows, base.trimOuterWhitespace);
    }
    r := CopyOptions(shallow);
  }

  method CopyAlias(alias: AliasObject) returns (r: AliasObject)
    ensures fresh(r.Footprint()) && AliasHeld(r, alias.Value(), r.Footprint())
  {
    var options := CopyOptions(alias.options);
    r := new AliasObject(alias.projectId, alias.canonicalProjectPath, alias.clientType, alias.clientId, alias.environmentId,
                         alias.hostKind, alias.hostRoot, options, alias.labelText);
  }

  method CopyProject(project: ProjectObject, ghost value: Project, ghost repr: set<object>)
    returns (r: ProjectObject, ghost owned: set<object>)
    requires ProjectHeld(project, value, repr)
    ensures fresh(r) && fresh(owned) && ProjectHeld(r, value, owned)
  {
    hide AliasHeld, AliasesHeld, OptionsObject.Value, AliasObject.Value, AliasObject.Footprint;
    var options := CopyOptions(project.options);
    var copies, names := CopyAliases(project.aliases, value.aliases, repr);
    owned := options.Footprint() + names;
    AliasesHeldMore(copies, value.aliases, names, owned);
    r := new ProjectObject(project.projectId, project.canonicalProjectPath, options, project.hostRoot, copies);
  }

  method CopyAliases(aliases: seq<AliasObject>, ghost values: seq<Alias>, ghost repr: set<object>)
    returns (copies: seq<AliasObject>, ghost owned: set<object>)
    requires AliasesHeld(aliases, values, repr)
    ensures fresh(owned) && AliasesHeld(copies, values, owned)
  {
    hide AliasHeld, AliasObject.Value, AliasObject.Footprint;
    copies, owned := [], {};
    for i := 0 to |aliases|
      invariant fresh(owned) && AliasesHeld(copies, values[..i], owned)
    {
      AliasIsIn(aliases[i], values[i], repr);
      var copy := CopyAlias(aliases[i]);
      AliasesHeldAlso(copies, values[..i], owned, copy, values[i], copy.Footprint());
      copies := copies + [copy];
      owned := owned + copy.Footprint();
      assert values[..i + 1] == values[..i] + [values[i]];
    }
    assert values[..|aliases|] == values;
  }

  // ----- The broker -----

  class CanonicalPathBroker {
    const normalize: Normalizer
    var projects: map<string, ProjectObject>
    /** The options, groups and aliases below the project records. */
    ghost var Parts: set<object>
    ghost var Contents: Registry

    /** Every record says what `Contents` says, no two projects share one, and all are sound. */
    ghost predicate Valid()
      reads this, projects.Values, Parts
    {
      && this !in Parts && projects.Keys == Contents.Keys
      && (forall id :: id in projects ==> ProjectHeld(projects[id], Contents[id], Parts))
      && (forall id, other :: id in projects && other in projects && id != other ==> projects[id] != projects[other])
      && RegistryIsSound(normalize, Contents)
    }

    constructor (normalize: Normalizer)
      ensures Valid() && this.normalize == normalize && Contents == map[] && projects == map[] && Parts == {}
    {
      this.normalize := normalize;
      projects, Parts, Contents := map[], {}, map[];
    }

    method NativeOptions(request: AliasRequest, inherited: OptionsObject, ghost registration: AliasRegistration)
      returns (r: Result<(HostKind, OptionsObject)>)
      requires RequestValue(request) == registration
      ensures r.Ok? ==> fresh(r.value.1.Footprint())
      ensures NativeAliasOptions(registration, inherited.Value())
        == if r.Ok? then Ok((r.value.0, r.value.1.Value())) else Err(r.code)
    {
      hide IsNative;
      var requested := if request.options == null then None else request.options.sourceHost;
      var kind := if request.hostKind.Some? then request.hostKind.value
        else if requested.Some? then requested.value
        else if inherited.sourceHost.Some? && IsNative(inherited.sourceHost.value) then inherited.sourceHost.value
        else PosixHost;
      assert kind == ChosenKind(registration, inherited.Value());
      if !IsNative(kind) || (requested.Some? && requested.value != kind) {
        return Err(InvalidPath);
      }
      var base := if request.options != null then request.options
        else if inherited.sourceHost == Some(kind) then inherited
        else null;
      var options := CopyWithSource(base, Some(kind));
      assert options.Value() == BaseOptions(registration, inherited.Value()).(sourceHost := Some(kind));
      if options.trimOuterWhitespace == Some(true) {
        return Err(InvalidPath);
      }
      if kind == WslHost && !(options.wsl != null && options.wsl.fields.enabled == Some(true)) {
        return Err(InvalidPath);
      }
      r := Ok((kind, options));
    }

    method CreatePathAlias(project: ProjectObject, ghost value: Project, ghost repr: set<object>, request: AliasRequest,
                           ghost registration: AliasRegistration)
      returns (r: Result<AliasObject>)
      requires ProjectHeld(project, value, repr) && RequestValue(request) == registration
      ensures match CreateAlias(normalize, value, registration)
        case Ok(alias) => r.Ok? && fresh(r.value.Footprint()) && AliasHeld(r.value, alias, r.value.Footprint())
        case Err(code) => r == Err(code)
    {
      hide IsPlainNativeRoot, NativeAliasOptions, RequireText, AliasesHeld;
      var _ :- RequireText(request.clientType);
      var _ :- RequireText(request.clientId);
      var _ :- RequireText(request.environmentId);
      var _ :- RequireText(request.hostRoot);
      var chosen :- NativeOptions(request, project.options, registration);
      if !IsPlainNativeRoot(chosen.0, request.hostRoot) {
        return Err(InvalidPath);
      }
      var canonical :- normalize(request.hostRoot, chosen.1.Value());
      if canonical != project.canonicalProjectPath {
        return Err(InvalidPath);
      }
      var alias := new AliasObject(project.projectId, project.canonicalProjectPath, request.clientType, request.clientId,
                                   request.environmentId, chosen.0, request.hostRoot, chosen.1, request.labelText);
      r := Ok(alias);
    }

    method AddPathAlias(project: ProjectObject, ghost value: Project, ghost repr: set<object>, request: AliasRequest,
                        ghost registration: AliasRegistration)
      returns (r: Result<AliasObject>, ghost grown: set<object>)
      requires ProjectHeld(project, value, repr) && RequestValue(request) == registration
      modifies project`aliases
      ensures repr <= grown && fresh(grown - repr)
      ensures match AddAlias(normalize, value, registration)
        case Ok(after) =>
          && r.Ok? && ProjectHeld(project, after, grown) && after.aliases != []
          && AliasHeld(r.value, after.aliases[|after.aliases| - 1], grown)
        case Err(code) => r == Err(code) && project.aliases == old(project.aliases) && grown == repr
    {
      hide CreateAlias, AliasKey, Key, AliasHeld, AliasesHeld, ObjectKey, HoldsKey;
      hide RequestValue, ValueOrNone, AliasObject.Value, AliasObject.Footprint, OptionsObject.Value;
      grown := repr;
      var created := CreatePathAlias(project, value, repr, request, registration);
      if created.Err? {
        return Err(created.code), grown;
      }
      var alias := created.value;
      ghost var said := CreateAlias(normalize, value, registration).value;
      AliasIsIn(alias, said, alias.Footprint());
      KeysAgree(project.aliases, value.aliases, repr, ObjectKey(alias));
      if exists i :: 0 <= i < |project.aliases| && ObjectKey(project.aliases[i]) == ObjectKey(alias) {
        return Err(InvalidPath), grown;
      }
      grown := grown + alias.Footprint();
      AliasesHeldAlso(project.aliases, value.aliases, repr, alias, said, alias.Footprint());
      AliasHeldMore(alias, said, alias.Footprint(), grown);
      project.aliases := project.aliases + [alias];
      return Ok(alias), grown;
    }

    /** Registers an alias. A failure changes nothing; the record returned is the caller's alone. */
    method RegisterPathAlias(projectId: string, request: AliasRequest, ghost registration: AliasRegistration)
      returns (r: Result<AliasObject>)
      requires Valid() && RequestValue(request) == registration
      modifies this`Parts, this`Contents, projects.Values
      ensures Valid() && projects == old(projects) && old(Parts) <= Parts && fresh(Parts - old(Parts))
      ensures Contents == After(normalize, old(Contents), AliasRules.RegisterPathAlias(projectId, registration))
      ensures r.Ok? <==> projectId in Contents && AddAlias(normalize, old(Contents)[projectId], registration).Ok?
      ensures r.Ok? ==>
        && fresh(r.value.Footprint()) && r.value.Footprint() !! Parts
        && Contents[projectId].aliases == old(Contents)[projectId].aliases + [r.value.Value()]
      ensures r.Err? ==> Contents == old(Contents) && Parts == old(Parts)
    {
      hide ProjectHeld, AddAlias, After, AliasHeld, RegistryIsSound, RequestValue, AliasObject.Value;
      if projectId !in projects {
        UnknownProject(normalize, Contents, projectId, registration);
        return Err(InvalidPath);
      }
      AfterAlias(normalize, Contents, projectId, registration);
      var added := PushAlias(projectId, request, registration);
      if added.Err? {
        return Err(added.code);
      }
      ghost var aliases := Contents[projectId].aliases;
      AliasIsIn(added.value, aliases[|aliases| - 1], Parts);
      var copy := CopyAlias(added.value);
      AliasIsIn(copy, aliases[|aliases| - 1], copy.Footprint());
      r := Ok(copy);
    }

    method PushAlias(projectId: string, request: AliasRequest, ghost registration: AliasRegistration)
      returns (r: Result<AliasObject>)
      requires Valid() && RequestValue(request) == registration && projectId in projects
      modifies this`Parts, this`Contents, projects.Values
      ensures Valid() && projects == old(projects) && old(Parts) <= Parts && fresh(Parts - old(Parts))
      ensures match AddAlias(normalize, old(Contents)[projectId], registration)
        case Ok(after) =>
          && Contents == old(Contents)[projectId := after] && after.aliases != []
          && r.Ok? && AliasHeld(r.value, after.aliases[|after.aliases| - 1], Parts)
        case Err(code) => r == Err(code) && Contents == old(Contents) && Parts == old(Parts)
    {
      hide ProjectHeld, AddAlias, AliasHeld, RegistryIsSound, RequestValue;
      var project := projects[projectId];
      AfterAlias(normalize, Contents, projectId, registration);
      forall id | id in projects ensures projects[id] !in Parts {
        RecordIsApart(projects[id], Contents[id], Parts);
      }
      ghost var grown;
      r, grown := AddPathAlias(project, Contents[projectId], Parts, request, registration);
      if r.Ok? {
        forall id | id in projects && id != projectId ensures ProjectHeld(projects[id], Contents[id], grown) {
          ProjectHeldMore(projects[id], Contents[id], Parts, grown);
        }
        Contents := Contents[projectId := AddAlias(normalize, Contents[projectId], registration).value];
        Parts := grown;
      }
    }

    /** A caller's request and what it says. */
    ghost predicate Asks(request: ProjectRequest, registration: ProjectRegistration)
      reads *
    {
      && request.projectId == registration.projectId && request.projectRoot == registration.projectRoot
      && request.hostRoot == registration.hostRoot && ValueOrNone(request.options) == registration.options
      && |request.aliases| == |registration.aliases|
      && forall i :: 0 <= i < |request.aliases| ==> RequestValue(request.aliases[i]) == registration.aliases[i]
    }

    /** Registers a project, replacing any earlier one of that name. A failure changes nothing. */
    method RegisterProject(request: ProjectRequest, ghost registration: ProjectRegistration)
      returns (r: Result<ProjectObject>, ghost owned: set<object>)
      requires Valid() && Asks(request, registration)
      modifies this
      ensures Valid() && old(Parts) <= Parts && fresh(Parts - old(Parts))
      ensures Contents == After(normalize, old(Contents), AliasRules.RegisterProject(registration))
      ensures match NewProject(normalize, registration)
        case Ok(project) =>
          && r.Ok? && fresh(r.value) && fresh(owned) && ProjectHeld(r.value, project, owned)
          && r.value !in projects.Values && owned !! Parts && project.projectId == registration.projectId
          && projects.Keys == old(projects).Keys + {registration.projectId} && fresh(projects[registration.projectId])
          && forall id :: id in old(projects) && id != registration.projectId ==> projects[id] == old(projects)[id]
        case Err(code) => r == Err(code) && projects == old(projects) && Contents == old(Contents) && Parts == old(Parts)
    {
      hide NewProject, ProjectHeld, RegistryIsSound, After;
      owned := {};
      var built, parts := BuildProject(request, registration);
      AfterProject(normalize, Contents, registration);
      if built.Err? {
        return Err(built.code), owned;
      }
      Install(built.value, NewProject(normalize, registration).value, parts);
      RecordIsApart(built.value, Contents[registration.projectId], Parts);
      var copy;
      copy, owned := CopyProject(built.value, Contents[registration.projectId], Parts);
      r := Ok(copy);
    }

    method Install(record: ProjectObject, ghost project: Project, ghost parts: set<object>)
      requires Valid() && ProjectHeld(record, project, parts) && ProjectIsSound(normalize, project)
      requires record !in projects.Values && record !in Parts && parts !! projects.Values && this !in parts
      modifies this
      ensures Valid() && Parts == old(Parts) + parts
      ensures projects == old(projects)[project.projectId := record]
      ensures Contents == old(Contents)[project.projectId := project]
    {
      hide ProjectHeld, ProjectIsSound, RegistryIsSound;
      RecordIsApart(record, project, parts);
      SoundToo(normalize, Contents, project);
      forall id | id in projects ensures ProjectHeld(projects[id], Contents[id], Parts + parts) {
        RecordIsApart(projects[id], Contents[id], Parts);
        ProjectHeldMore(projects[id], Contents[id], Parts, Parts + parts);
      }
      ProjectHeldMore(record, project, parts, Parts + parts);
      projects := projects[record.projectId := record];
      Contents := Contents[project.projectId := project];
      Parts := Parts + parts;
    }

    method BuildProject(request: ProjectRequest, ghost registration: ProjectRegistration)
      returns (r: Result<ProjectObject>, ghost parts: set<object>)
      requires Asks(request, registration)
      ensures match NewProject(normalize, registration)
        case Ok(project) => r.Ok? && fresh(r.value) && fresh(parts) && ProjectHeld(r.value, project, parts)
        case Err(code) => r == Err(code)
    {
      hide ProjectHeld, OptionsObject.Value, WithGateway, AddAll, CreateAlias;
      parts := {};
      OptionsOfRequest(request.options);
      if request.projectId == "" {
        return Err(InvalidPath), parts;
      }
      if '\0' in request.projectId {
        return Err(NulByte), parts;
      }
      var source := if request.options != null && request.options.sourceHost.Some? then request.options.sourceHost
        else Some(PosixHost);
      var options := CopyWithSource(request.options, source);
      var canonical := normalize(request.projectRoot, options.Value());
      if canonical.Err? {
        return Err(canonical.code), parts;
      }
      var record := new ProjectObject(request.projectId, canonical.value, options, request.hostRoot, []);
      parts := options.Footprint();
      ghost var value := Project(request.projectId, canonical.value, options.Value(), request.hostRoot, []);
      BareIsHeld(record, value, parts);
      var hosted: Result<()>;
      hosted, parts := AddGateway(record, value, parts, request.hostRoot);
      if hosted.Err? {
        return Err(hosted.code), parts;
      }
      value := WithGateway(normalize, value).value;
      var added: Result<()>;
      added, parts := AddAliases(record, value, parts, request.aliases, registration.aliases);
      if added.Err? {
        return Err(added.code), parts;
      }
      r := Ok(record);
    }

    method AddGateway(record: ProjectObject, ghost value: Project, ghost parts: set<object>, hostRoot: Option<string>)
      returns (r: Result<()>, ghost grown: set<object>)
      requires ProjectHeld(record, value, parts) && hostRoot == value.hostRoot
      modifies record`aliases
      ensures parts <= grown && fresh(grown - parts)
      ensures match WithGateway(normalize, value)
        case Ok(after) => r.Ok? && ProjectHeld(record, after, grown)
        case Err(code) => r == Err(code)
    {
      hide AddAlias, AliasesHeld;
      grown := parts;
      if hostRoot.None? {
        return Ok(()), grown;
      }
      if record.options.sourceHost.None? || !IsNative(record.options.sourceHost.value) {
        return Err(InvalidPath), grown;
      }
      var request := AliasRequest("gateway", "default", "default", record.options.sourceHost, hostRoot.value, record.options,
                                  Some("default host root"));
      var added: Result<AliasObject>;
      added, grown := AddPathAlias(record, value, parts, request, GatewayRegistration(hostRoot.value, value.options));
      r := if added.Ok? then Ok(()) else Err(added.code);
    }

    method AddAliases(record: ProjectObject, ghost value: Project, ghost parts: set<object>, requests: seq<AliasRequest>,
                      ghost registrations: seq<AliasRegistration>)
      returns (r: Result<()>, ghost grown: set<object>)
      requires ProjectHeld(record, value, parts) && |requests| == |registrations|
      requires forall i :: 0 <= i < |requests| ==> RequestValue(requests[i]) == registrations[i]
      modifies record`aliases
      ensures parts <= grown && fresh(grown - parts)
      ensures match AddAll(normalize, value, registrations)
        case Ok(after) => r.Ok? && ProjectHeld(record, after, grown)
        case Err(code) => r == Err(code)
    {
      hide AddAlias, AliasesHeld, ProjectHeld, AddAll;
      grown := parts;
      AddNothing(normalize, value);
      ghost var current := value;
      for i := 0 to |requests|
        invariant parts <= grown && fresh(grown - parts)
        invariant AddAll(normalize, value, registrations[..i]) == Ok(current) && ProjectHeld(record, current, grown)
        invariant forall k :: 0 <= k < |requests| ==> RequestValue(requests[k]) == registrations[k]
      {
        AddAllStep(normalize, value, registrations, i);
        var added: Result<AliasObject>;
        added, grown := AddPathAlias(record, current, grown, requests[i], registrations[i]);
        if added.Err? {
          AddAllStops(normalize, value, registrations, i + 1);
          return Err(added.code), grown;
        }
        current := AddAlias(normalize, current, registrations[i]).value;
      }
      assert registrations[..|requests|] == registrations;
      r := Ok(());
    }

    /** A project's record, copied to the last group of options: the caller's to rewrite. */
    method GetProject(projectId: string) returns (r: Result<ProjectObject>, ghost owned: set<object>)
      requires Valid()
      ensures r.Ok? <==> projectId in Contents
      ensures r.Err? ==> r == Err(InvalidPath)
      ensures r.Ok? ==>
        && fresh(r.value) && fresh(owned) && ProjectHeld(r.value, Contents[projectId], owned)
        && r.value !in projects.Values && owned !! Parts
    {
      owned := {};
      if projectId !in projects {
        return Err(InvalidPath), owned;
      }
      var copy;
      copy, owned := CopyProject(projects[projectId], Contents[projectId], Parts);
      r := Ok(copy);
    }
  }

  lemma UnknownProject(normalize: Normalizer, registry: Registry, id: string, registration: AliasRegistration)
    requires id !in registry
    ensures After(normalize, registry, RegisterPathAlias(id, registration)) == registry
  {
  }

  lemma BareIsHeld(record: ProjectObject, value: Project, parts: set<object>)
    requires record !in parts && record.options in parts && OptionsHeld(record.options, value.options, parts)
    requires record.projectId == value.projectId && record.canonicalProjectPath == value.canonicalProjectPath
    requires record.hostRoot == value.hostRoot && record.aliases == [] && value.aliases == []
    ensures ProjectHeld(record, value, parts)
  {
  }

  lemma OptionsOfRequest(options: OptionsObject?)
    ensures options != null ==> options.Value().sourceHost == options.sourceHost
  {
  }

  lemma AddNothing(normalize: Normalizer, project: Project)
    ensures AddAll(normalize, project, []) == Ok(project)
  {
  }

  // ----- Isolation -----

  /** Whatever happens to objects that are not the broker's own leaves the broker's state alone. */
  twostate lemma ForeignWritesAreHarmless(broker: CanonicalPathBroker)
    requires old(broker.Valid())
    requires unchanged(broker) && unchanged(old(broker.Parts)) && unchanged(old(broker.projects.Values))
    ensures broker.Valid() && broker.Contents == old(broker.Contents)
  {
  }

  /** Everything reached from a record lies in what it owns. */
  lemma RecordParts(record: ProjectObject, value: Project, owned: set<object>)
    requires ProjectHeld(record, value, owned)
    ensures record !in owned && record.options in owned && record.options.Footprint() <= owned
    ensures forall i :: 0 <= i < |record.aliases| ==>
      record.aliases[i] in owned && record.aliases[i].options in owned && record.aliases[i].options.Footprint() <= owned
  {
  }

  /** A caller that takes a record and rewrites every level of it. */
  method RewriteReturned(broker: CanonicalPathBroker, projectId: string, path: string, host: Option<HostKind>, mount: WslGroup)
    requires broker.Valid()
    ensures broker.Valid() && broker.Contents == old(broker.Contents)
  {
    hide ProjectHeld, CanonicalPathBroker.Valid;
    var found, owned := broker.GetProject(projectId);
    if found.Ok? {
      RecordParts(found.value, broker.Contents[projectId], owned);
      label taken:
      Rewrite(found.value, owned, path, host, mount);
      ForeignWritesAreHarmless@taken(broker);
    }
  }

  method Rewrite(record: ProjectObject, ghost owned: set<object>, path: string, host: Option<HostKind>, mount: WslGroup)
    requires record !in owned && record.options in owned && record.options.Footprint() <= owned
    requires forall i :: 0 <= i < |record.aliases| ==>
      record.aliases[i] in owned && record.aliases[i].options in owned && record.aliases[i].options.Footprint() <= owned
    modifies record, owned
  {
    if record.options.wsl != null {
      record.options.wsl.fields := mount;
    }
    if record.aliases != [] {
      var alias := record.aliases[0];
      if alias.options.wsl != null {
        alias.options.wsl.fields := mount;
      }
      alias.options.sourceHost := host;
      alias.canonicalProjectPath := path;
    }
    record.options.sourceHost := host;
    record.canonicalProjectPath, record.aliases := path, [];
  }
}
