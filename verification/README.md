# A verified model of CanonicalPath and CanonicalFS

CanonicalPath gives one path one identity across runtimes; CanonicalFS, its daemon and its Unity gateway put real files,
sockets and archives behind that identity. This project models the parts where a mistake would be hardest to see, and
proves what they promise for every input and every run.

`dafny verify dfyconfig.toml` checks the whole project.

| module | models |
|---|---|
| Basics, Text, Grammar, Identity, Meaning, Acceptance | the reference path grammar in Go: six kinds of root, the dot cleaner, the printer with its `./C:` marker, and what a path means in a tree |
| RelativePaths | `Join` and `Relative` |
| Normalize, NormalizeLaws, HostLaws, RawStability, WindowsLaws, NormalizeReference | host input modes, policies, the WSL and Windows serializers, and which modes are stable |
| CSharpGrammar | the C# parser, cleaner and in-place validator against the reference grammar |
| ScopedGlob, ScopedPaths, ScopedStore, ScopedSortCharge, ScopedBridge | the TypeScript fake bridge: its two-row glob matcher, work budget and bounded text store |
| Admission | the daemon's connection limiter as a transition system over its lock sections |
| ProjectRegistry | the daemon's project handles: leases, quota, and exactly one close |
| ZipDirectory, ZipBudget, ZipStream | the ZIP end-record check, the budgets that bound extraction, and the copy of one member from its reader |
| Utf8 | the C port's UTF-8 validator |
| BurstCopy | the Unity Burst copy loop |
| AliasRules, AliasBroker | the gateway's project and alias registry |

A path is a `Root` with a list of component names. `Print` turns it into text and `Denote` reads text; the string
functions of the code are proved to agree with these two, and most laws are then short facts about lists of names.
Imperative code stays imperative: the listener, the registry, the stores, the budgets, the matcher and the broker are
classes whose methods are proved against functions on values, and the properties of whole runs are proved about those
functions.

The functions on values are themselves pinned down by lemmas that do not mention them: what a grammar accepts is said by
the shape of its texts, where a path leads by walking in a tree, what a pattern matches by its characters, and what a lock
section or a registration decides by the fields before it.

Where the code promises less than its tests or documentation suggest:

- `packages/go/canonicalpath/fuzz_test.go:20-35` expects default normalization to be idempotent. It is not:
  `RawModeIsNotIdempotent` shows an input, and `RereadsExactly` and `RawModeStableIff` say exactly what is stable.
- The strict relative validator does not put the drive marker back, so it refuses some of its own results:
  `StrictRelativeIsNotIdempotent` and `StrictRelativeStableIff`.
- Extraction takes an empty read without an end for the end of a member, if it comes just when the allowance is used up:
  `StalledReaderPasses`. `TrustedExactly` says which readers it can rely on, and `NeverIdleIsTrusted` names a class of them:
  those that never answer empty without an end. By their code in Go's library, which is not part of this model, the readers
  for stored and deflated members belong to it, so a stall needs another registered decompressor.
- The Burst copy loop means to refuse `..`, and also refuses every name that ends in exactly three dots:
  `TraversalTestExactly`.

## Model

| member | source | states |
|---|---|---|
| Grammar.CleanCanonical | packages/go/canonicalpath/grammar.go:107-148 | the cleaning loop, with its early refusals, returns what the recursive stack machine defines, which the lemmas below tie to path values |
| Grammar.SplitRootShape | packages/go/canonicalpath/grammar.go:7-46 | root splitting loses nothing: the text is the prefix of its root, at most one separator, and the rest |
| Grammar.RootIsValid | packages/go/canonicalpath/grammar.go:7-46 | every accepted root is well formed; an ordinary UNC server is never `?`, an extended one may be |
| Grammar.RootReadsBack | packages/go/canonicalpath/grammar.go:7-46 | any valid root in front of any admissible text is found again exactly, so the six kinds never overlap |
| Identity.CleanedPrintsDenoted | packages/go/canonicalpath/grammar.go:107-148 | cleaning returns the printed form of the path a text denotes, and fails, with the same code, exactly when it denotes none |
| Identity.DenotedOfPrint | packages/go/canonicalpath/grammar.go:7-148 | printing and then reading any valid path gives it back, with its drive letter in lower case |
| Identity.CleaningIsIdempotent | packages/go/canonicalpath/grammar.go:107-148 | cleaning a cleaned path changes nothing |
| Identity.PrintIsInjective | packages/go/canonicalpath/grammar.go:70-86 | different paths never print alike, so marked relative, drive, POSIX and UNC identities do not collide |
| Identity.CanonicalIffPrinted | packages/go/canonicalpath/grammar.go:107-148 | a string is its own cleaned form exactly when it is the print of a normal path |
| Identity.ParsedOfPrint | packages/go/canonicalpath/grammar.go:152-169 | strict parsing returns the prefix and the joined names of a printed path, whatever the case of its drive letter |
| Identity.StrictIffPrinted | packages/go/canonicalpath/grammar.go:152-169 | strict parsing accepts exactly the prints of valid paths |
| Identity.SameIdentity | packages/go/canonicalpath/grammar.go:107-148 | two inputs clean to one string exactly when their roots agree up to drive case and their components resolve alike |
| Meaning.ResolveKeepsPlace | packages/go/canonicalpath/grammar.go:119-133 | the component stack leads where the raw components lead, in every tree without links |
| Meaning.CleaningPreservesMeaning | packages/go/canonicalpath/grammar.go:107-148 | a cleaned path leads to the node the raw one led to: from every start if relative, from a root that is its own parent otherwise |
| Meaning.IdentityIsMeaning | packages/go/canonicalpath/grammar.go:107-148 | under one root, two inputs clean alike exactly when they lead to one node of the tree of names |
| Meaning.ResolveFailsIffDips | packages/go/canonicalpath/grammar.go:124-129 | from any stack, an unclamped walk is refused exactly when some prefix of it dips below its start |
| Meaning.RelativeEscapeIsDip | packages/go/canonicalpath/grammar.go:124-129 | cleaning refuses a relative input exactly when some prefix of its components dips below its start |
| Meaning.RootedNeverEscapes | packages/go/canonicalpath/grammar.go:124-129 | a rooted input is never refused for escaping: `..` stops at the complete root |
| Acceptance.RootsExactly | packages/go/canonicalpath/grammar.go:7-46 | the grammar accepts exactly the texts that are one of six well-formed roots, at most one separator and a rest |
| Acceptance.RootErrors | packages/go/canonicalpath/grammar.go:24-31 | a refused root is a drive-relative error exactly for a letter and a colon without a slash |
| Acceptance.CleansExactly | packages/go/canonicalpath/grammar.go:107-148 | cleaning, completely: each refusal with its code, an escape exactly for a relative dip, and otherwise the root and the names that the components lead to |
| Acceptance.LedKeepsPlace | packages/go/canonicalpath/grammar.go:119-133 | those names stand for the same place as the components, from every node of every tree without links |
| Acceptance.CleanedDriveIsLower | packages/go/canonicalpath/grammar.go:56-64 | a cleaned drive letter is in lower case, under an extended root too |
| Acceptance.MarkerExactly | packages/go/canonicalpath/grammar.go:66-75 | a relative path is printed with the marker exactly when its first name starts like a drive |
| RelativePaths.NormalizeCanonicalRelative | packages/go/canonicalpath/relative.go:61-95 | the loop returns what the stack machine defines, with its own error code for each refusal |
| Acceptance.RelativeNamesExactly | packages/go/canonicalpath/relative.go:61-95 | a relative argument, completely: each refusal with its code, an escape exactly when a prefix dips, and otherwise the names it leads to |
| Acceptance.CleanedRelativeExactly | packages/go/canonicalpath/relative.go:77-94 | an argument that is not rooted escapes exactly when some prefix of its components dips below its start |
| RelativePaths.Relative | packages/go/canonicalpath/relative.go:6-27 | the comparison loop decides component-wise descent |
| RelativePaths.JoinAppendsNames | packages/go/canonicalpath/relative.go:30-57 | a join appends the resolved names to the root's names and changes nothing else, and says when it refuses |
| Acceptance.JoinExactly | packages/go/canonicalpath/relative.go:30-57 | a join, completely: its refusals in order, and otherwise the root's names followed by those the argument leads to |
| RelativePaths.RelativeDropsNames | packages/go/canonicalpath/relative.go:6-27 | a relative result holds the target's names after the root's; it exists exactly for equal roots and a prefix of names |
| RelativePaths.JoinUndoesRelative | packages/go/canonicalpath/relative.go:6-57 | joining a root with a target's relative form gives the exact target |
| RelativePaths.RelativeUndoesJoin | packages/go/canonicalpath/relative.go:6-57 | the relative form of a join is the cleaned argument |
| RelativePaths.RelativeIffDescendant | packages/go/canonicalpath/relative.go:6-27 | a relative form exists exactly when both operands are canonical, absolute, and one descends from the other component by component |
| RelativePaths.JoinAssociates | packages/go/canonicalpath/relative.go:30-57 | for clean relative arguments, joining one after the other and joining their join agree, errors included |
| NormalizeLaws.ResolveKeepsParts | packages/go/canonicalpath/grammar.go:119-133 | components that survive cleanup were raw components |
| NormalizeLaws.PoliciesSurviveCleanup | packages/go/canonicalpath/windows.go:33-56 | Windows policies met by the raw components are met by the cleaned path |
| NormalizeLaws.FinishIsStable | packages/go/canonicalpath/normalize.go:99-112 | the common tail of normalization is idempotent under its own options, policies and target profile included |
| NormalizeLaws.ProfileJudgesRoot | packages/go/canonicalpath/normalize.go:172-193 | a target profile judges the kind of the parsed root: `posix` takes POSIX and relative, `win32-drive` takes both drive kinds and relative, `portable` takes all |
| NormalizeLaws.PreparedRoot | packages/go/canonicalpath/grammar.go:88-97 | prepared native input is POSIX or relative, and POSIX exactly when it starts with a slash: never drive or UNC |
| NormalizeLaws.PosixModeIsIdempotent | packages/go/canonicalpath/normalize.go:71-113 | native POSIX normalization is idempotent under the same full options |
| NormalizeLaws.CanonicalModeIsIdempotent | packages/go/canonicalpath/normalize.go:71-113 | so is canonical mode |
| NormalizeLaws.PosixResultIsCanonical | packages/go/canonicalpath/normalize.go:71-113 | a native POSIX result is a fixed point of canonical mode |
| NormalizeReference.ReservedExactly | packages/go/canonicalpath/windows.go:38-67 | a component is reserved exactly when the text before its first dot or colon spells a device in any case |
| NormalizeReference.PoliciesExactly | packages/go/canonicalpath/normalize.go:162-170 | the policies judge every raw component after the root, streams before devices |
| NormalizeReference.FinishExactly | packages/go/canonicalpath/normalize.go:99-112 | the common tail, completely: root, policies on raw components, escape, profile, in this order |
| NormalizeReference.PosixModeExactly | packages/go/canonicalpath/normalize.go:71-113 | native POSIX mode, completely, from the characters of the input |
| NormalizeReference.CanonicalModeExactly | packages/go/canonicalpath/normalize.go:71-113 | canonical mode, completely: no input is reinterpreted |
| NormalizeReference.MountRootExactly | packages/go/canonicalpath/wsl.go:35-46 | mount roots, completely: `/mnt` by default, absolute native POSIX otherwise |
| NormalizeReference.SchemeExactly | packages/go/canonicalpath/normalize.go:195-206 | a text has a scheme exactly when scheme characters come before its `://` |
| NormalizeReference.RawModeExactly | packages/go/canonicalpath/normalize.go:71-160 | raw modes decode exactly URIs, and read under WSL exactly slash-rooted text without exactly two slashes that is no decoded drive |
| NormalizeReference.WSLReadsExactly | packages/go/canonicalpath/normalize.go:126-146 | under WSL the policies see all raw components first; then the components decide the drive below the mount, or the POSIX path |
| NormalizeReference.CrossHostReadsExactly | packages/go/canonicalpath/normalize.go:147-159 | cross-host text, by characters: backslashes, the extended prefix, the slash before a drive |
| NormalizeReference.UnwrapByRoot | packages/go/canonicalpath/windows.go:23-31 | unwrapping gives the ordinary root with the same drive, or the same server and share |
| NormalizeReference.ToWSLExactly | packages/go/canonicalpath/wsl.go:12-33 | writing for WSL, root by root: POSIX and relative paths unchanged, other Windows roots refused |
| NormalizeReference.ToWin32Exactly | packages/go/canonicalpath/windows.go:6-21 | which canonical paths have a Windows form, and that form character by character |
| HostLaws.MountMatchesComponents | packages/go/canonicalpath/wsl.go:49-58 | matching a mount's text is matching its components, and what is left is the other components |
| HostLaws.MapByComponents | packages/go/canonicalpath/wsl.go:49-66 | a mount maps a path exactly when the component after it is one ASCII letter, and to that drive with the other names |
| HostLaws.ToWSLText | packages/go/canonicalpath/wsl.go:12-33 | a drive path is written as the mount, its letter in lower case, and its names |
| HostLaws.NormalizeUndoesToWSL | packages/go/canonicalpath/wsl.go:12-66 | a canonical drive path that was written for WSL is read back, under the same mount, exactly when the target profile takes drives and the policies take the written text |
| HostLaws.ToWSLUndoesNormalize | packages/go/canonicalpath/normalize.go:115-146 | whatever input, URIs included, a mount maps to a drive is written back as its cleaned POSIX form, with the drive component in lower case |
| RawStability.CanonicalHasNoScheme | packages/go/canonicalpath/normalize.go:195-206 | no canonical text is taken for a URI |
| RawStability.UnwrappingChanges | packages/go/canonicalpath/windows.go:23-31 | unwrapping a canonical extended path never gives that path back |
| RawStability.RereadsExactly | packages/go/canonicalpath/normalize.go:115-160 | any canonical string read as raw input comes back unchanged exactly when mount, policies and profile take it and it is not slash-drive text, holds no backslash and is no extended root to be unwrapped, or, as a WSL candidate, is not below a mounted drive |
| RawStability.RawModeStableIff | packages/go/canonicalpath/normalize.go:71-160 | so a raw-mode result is stable under its own options, in every raw mode, exactly when it passes that test |
| RawStability.RawModeIsNotIdempotent | packages/go/canonicalpath/normalize.go:156-158 | `/a/../C:/x` becomes `/C:/x`, which becomes `c:/x` |
| RawStability.NormalizeRelative | packages/go/canonicalpath/relative.go:98-136 | the strict validator's loop returns what the stack machine defines, without a drive marker |
| Acceptance.StrictRelativeSays | packages/go/canonicalpath/relative.go:98-136 | the strict validator, completely: each refusal with its code, and otherwise the names the text leads to |
| RawStability.StrictRelativeExactly | packages/go/canonicalpath/relative.go:98-136 | the strict validator returns a canonical string unchanged exactly when it is relative, unmarked and free of backslashes |
| RawStability.StrictRelativeStableIff | packages/go/canonicalpath/relative.go:98-136 | the strict validator accepts its own result, unchanged, exactly when that result does not start like a drive |
| RawStability.StrictRelativeIsNotIdempotent | packages/go/canonicalpath/relative.go:111-113 | `x/../C:foo` becomes `C:foo`, which is refused |
| WindowsLaws.NormalizeUndoesToWin32 | packages/go/canonicalpath/windows.go:6-21 | a canonical path that was written for Windows is read back exactly when mount, policies and target profile take it and, if it is extended, its prefix is preserved |
| WindowsLaws.ToWin32IsInjective | packages/go/canonicalpath/windows.go:6-21 | two canonical paths never share a Windows form |
| CSharpGrammar.ParseGrammarIsSplitRoot | packages/csharp/CanonicalPath.cs:63-94 | the C# parser finds the reference root, its drive letter in lower case, and the same rest, or the same error |
| CSharpGrammar.CleanGrammar | packages/csharp/CanonicalPath.cs:96-113 | the C# cleaning loop returns what the stack machine defines, with the caller's code for an escape |
| CSharpGrammar.CleanGrammarAgrees | packages/csharp/CanonicalPath.cs:96-113 | in canonical grammar the C# and Go cleaners are one function |
| Acceptance.EscapesWithCode | packages/csharp/CanonicalPath.cs:103-107 | an escape is reported with the caller's code, and nothing else depends on that code |
| CSharpGrammar.NativeCleanersAgree | packages/csharp/CanonicalPath.cs:67-71 | so are the native POSIX cleaners, which prepare their input in different ways |
| CSharpGrammar.CheckMeansCanonical | packages/csharp/CanonicalPath.cs:115-142 | what the in-place check tests is strict parsing, and with an exact prefix it is canonical identity |
| CSharpGrammar.ScanStep | packages/csharp/CanonicalPath.cs:133-140 | the test on one component, together with the rest, decides all of them |
| CSharpGrammar.ScanComponents | packages/csharp/CanonicalPath.cs:133-140 | the index loop accepts exactly when no component is empty or a dot part, every access in range |
| CSharpGrammar.RequireCanonical | packages/csharp/CanonicalPath.cs:115-142 | the validator accepts exactly the strings cleaning returns unchanged, or, with drive case allowed, exactly those strict parsing accepts |
| ScopedGlob.RowSingle | packages/ts/src/unity-gateway/fake-bridge.ts:320-320 | a text one unit longer matches with a last single token exactly when the shorter one matches without it and the token takes the unit |
| ScopedGlob.RowRepeat | packages/ts/src/unity-gateway/fake-bridge.ts:316-318 | with a last repeating token it matches when it matched without that token, or when the token takes one more unit |
| ScopedGlob.CollapseKeepsLanguage | packages/ts/src/unity-gateway/fake-bridge.ts:284-295 | dropping a globstar after a globstar keeps the language of every pattern |
| ScopedGlob.TokensMeanCharacters | packages/ts/src/unity-gateway/fake-bridge.ts:283-324 | the tokens of a pattern have the language of its written characters |
| ScopedGlob.WrittenCharacters | packages/ts/src/unity-gateway/fake-bridge.ts:314-321 | alone, a star is any text without a slash, two stars any text on one line, a question mark one unit that is no slash, and another character itself |
| ScopedGlob.TokenizeAppend | packages/ts/src/unity-gateway/fake-bridge.ts:284-295 | a pattern is read piece by piece wherever no pair of stars crosses the cut |
| ScopedGlob.CompileTokens | packages/ts/src/unity-gateway/fake-bridge.ts:284-295 | the compiling loop yields the tokens as written, with runs of globstars collapsed |
| ScopedGlob.ScopedQueryBudget.Consume | packages/ts/src/unity-gateway/fake-bridge.ts:274-281 | a charge is taken in full or refused without effect, and work left plus cells written never exceeds the query limit |
| ScopedGlob.CompiledGlob.Accepts | packages/ts/src/unity-gateway/fake-bridge.ts:301-329 | whatever earlier calls left in the two swapped rows, a path is accepted exactly when it is in the language of the written characters; every cell written was paid for before |
| ScopedPaths.UnderByComponents | packages/ts/src/unity-gateway/fake-bridge.ts:270-272 | a path is under a prefix exactly when the prefix's components are its first ones |
| ScopedPaths.ScopedPathExactly | packages/ts/src/unity-gateway/path-service.ts:94-205 | which workflow paths are admitted, by units, components and length, and where each lies in the project |
| ScopedPaths.ScopedGlobExactly | packages/ts/src/unity-gateway/path-service.ts:122-224 | which patterns are admitted |
| ScopedPaths.LiteralPrefixExactly | packages/ts/src/unity-gateway/path-service.ts:207-209 | the literal prefix ends at the first wildcard after which the component stays on one line |
| ScopedPaths.ProjectPathsAreInjective | packages/ts/src/unity-gateway/path-service.ts:102-105 | different scopes or admitted paths never share a project-relative path |
| ScopedStore.KeysAreInjective | packages/ts/src/unity-gateway/fake-bridge.ts:255-257 | keys of NUL-free projects determine project, scope and path, whatever the path holds |
| ScopedStore.PrefixSelectsOwner | packages/ts/src/unity-gateway/fake-bridge.ts:222-226 | a key starts with a project's and scope's prefix exactly when it belongs to them |
| ScopedStore.StoreExactly | packages/ts/src/unity-gateway/fake-bridge.ts:196-208 | a store succeeds exactly when the store it would make stays within every cap, and then makes it |
| ScopedStore.StoreKeepsAccounts | packages/ts/src/unity-gateway/fake-bridge.ts:196-208 | a store leaves the held units equal to the sum of key and text lengths and within the cap, and the entry cap intact |
| ScopedStore.RunKeepsAccounts | packages/ts/src/unity-gateway/fake-bridge.ts:196-208 | so does every run of stores, failed ones included |
| ScopedStore.SelectedExactly | packages/ts/src/unity-gateway/fake-bridge.ts:218-235 | a query reports a path exactly when that project and scope hold it and the filter accepts it |
| ScopedStore.SelectedOnce | packages/ts/src/unity-gateway/fake-bridge.ts:218-235 | and reports it once |
| ScopedStore.StoredPathsResolve | packages/ts/src/unity-gateway/fake-bridge.ts:228-232 | checking a stored path again during a query never fails |
| ScopedStore.SelectedResolve | packages/ts/src/unity-gateway/fake-bridge.ts:228-234 | every reported entry names a stored file, its validated path in the project, and its length |
| ScopedSortCharge.PassFitsAndSortDoesNot | packages/ts/src/unity-gateway/fake-bridge.ts:218-240 | 6,000 files that the store admits are passed over within the work limit, and every sort that makes at least one comparison fewer than there are entries exceeds it |
| ScopedBridge.SeedKeyParts | packages/ts/src/unity-gateway/fake-bridge.ts:54-63 | cutting a seed key at its NULs finds exactly the keys of registered projects with admitted paths |
| ScopedBridge.FakeUnityBridge.StoreScopedText | packages/ts/src/unity-gateway/fake-bridge.ts:196-208 | accepts exactly what the caps admit; a refused store changes nothing |
| ScopedBridge.FakeUnityBridge.WriteScopedText | packages/ts/src/unity-gateway/fake-bridge.ts:122-137 | succeeds exactly when limit, project, path and caps all admit the text, and then stores it under its own key; otherwise nothing changes |
| ScopedBridge.FakeUnityBridge.StoreSeed | packages/ts/src/unity-gateway/fake-bridge.ts:54-63 | seed data enters only under keys that the tool itself could have written |
| ScopedBridge.FakeUnityBridge.ReadScopedText | packages/ts/src/unity-gateway/fake-bridge.ts:106-120 | returns the stored text, cut at the limit, and says whether it was cut |
| ScopedBridge.FakeUnityBridge.ExamineKey | packages/ts/src/unity-gateway/fake-bridge.ts:224-235 | looking at one key fails exactly when its prefix test, validation and filter do not fit the work left or its path does not validate again |
| ScopedBridge.FakeUnityBridge.Pass | packages/ts/src/unity-gateway/fake-bridge.ts:221-235 | the pass over a reachable store succeeds exactly when its cost fits the work left, and reports exactly the selected entries |
| ScopedBridge.FakeUnityBridge.ChargeSort | packages/ts/src/unity-gateway/fake-bridge.ts:236-239 | the comparisons are made exactly when all their charges fit the work left |
| ScopedBridge.FakeUnityBridge.ScopedEntries | packages/ts/src/unity-gateway/fake-bridge.ts:218-240 | a query succeeds exactly when its pass and its sort together fit the work limit, and gives the selected entries as the sort arranges them; no query writes more matcher cells than the limit |
| ScopedBridge.FakeUnityBridge.ListScoped | packages/ts/src/unity-gateway/fake-bridge.ts:139-154 | succeeds exactly when limit, project and prefix are admitted and the whole work, sort included, fits; gives the first entries of the sorted selection and reports truncation exactly |
| ScopedBridge.FakeUnityBridge.GlobScoped | packages/ts/src/unity-gateway/fake-bridge.ts:156-169 | the same for a glob, selecting by the declarative language |
| Admission.NewBoundedListener | packages/go/canonicalfsrpc/connection_admission.go:29-59 | a listener exists exactly for positive limits that leave room beside the unauthenticated connections |
| Admission.BoundedListener.AcceptSection | packages/go/canonicalfsrpc/connection_admission.go:68-81 | admits exactly while both counts are below their limits, a fresh waiting connection with its deadline, and keeps the invariant |
| Admission.BoundedListener.AuthenticateSection | packages/go/canonicalfsrpc/connection_admission.go:105-125 | promotes exactly an active, unexpired connection strictly before its deadline, and keeps the invariant |
| Admission.BoundedListener.ExpireSection | packages/go/canonicalfsrpc/connection_admission.go:140-147 | decides to close exactly an active connection that is neither promoted nor expired yet |
| Admission.BoundedListener.CloseSection | packages/go/canonicalfsrpc/connection_admission.go:159-168 | removes the connection and counts it out of the pending ones if it was never promoted |
| Admission.AuthenticatesExactly | packages/go/canonicalfsrpc/connection_admission.go:105-125 | an active waiting connection is promoted exactly before its deadline and expired from it on; nothing else changes |
| Admission.StepKeepsInv | packages/go/canonicalfsrpc/connection_admission.go:61-171 | every step of every thread keeps the invariant: pending counts the active unauthenticated connections, both caps hold, and none is both promoted and expired |
| Admission.RunsAreSafe | packages/go/canonicalfsrpc/connection_admission.go:61-171 | every state of every interleaving meets it |
| Admission.AcceptanceIsExact | packages/go/canonicalfsrpc/connection_admission.go:61-83 | in every run, a socket is admitted exactly when both counts are below their limits |
| Admission.AuthenticationIsExact | packages/go/canonicalfsrpc/connection_admission.go:100-126 | in every run, an active waiting connection is promoted exactly if it is unexpired and before its deadline |
| Admission.EveryThreadCanMove | packages/go/canonicalfsrpc/connection_admission.go:61-171 | no thread waits for another: each can take its next step in every state |
| Admission.LeavesAtMostOnce | packages/go/canonicalfsrpc/connection_admission.go:156-171 | a connection that left the active set never returns to it |
| Admission.ExpirySparesPromoted | packages/go/canonicalfsrpc/connection_admission.go:139-154 | a connection closed by expiry is promoted in no state of the run, earlier or later |
| Admission.PromotionBeatsDeadline | packages/go/canonicalfsrpc/connection_admission.go:115-122 | promotion happens only by authentication and strictly before the deadline set at acceptance |
| Admission.SocketsAreBounded | packages/go/canonicalfsrpc/connection_admission.go:69-75 | no interleaving holds more than one open socket above the connection limit |
| Admission.OverdueIsPursued | packages/go/canonicalfsrpc/connection_admission.go:139-171 | an overdue unauthenticated connection always has an enabled step of its own that takes it closer to leaving |
| Admission.RankNeverGrows | packages/go/canonicalfsrpc/connection_admission.go:61-171 | and no step of any thread takes it further away |
| ProjectRegistry.Server.ExpireRootsLocked | packages/go/canonicalfsrpc/server.go:597-605 | the sweeping loop closes and drops exactly the expired leases |
| ProjectRegistry.Server.OpenProject | packages/go/canonicalfsrpc/server.go:295-312 | registers exactly under the quota or in place of a registered project, closes a replaced handle, and keeps the invariant |
| ProjectRegistry.Server.Root | packages/go/canonicalfsrpc/server.go:620-633 | finds exactly a project idle for less than the timeout and sets its lease to the time of use |
| ProjectRegistry.Server.TakeRoot | packages/go/canonicalfsrpc/server.go:635-649 | hands a live project's handle to the caller and forgets it |
| ProjectRegistry.Server.CloseTakenRoot | packages/go/canonicalfsrpc/server.go:317-332 | a taken handle is open until this close |
| ProjectRegistry.Server.Close | packages/go/canonicalfsrpc/server.go:219-235 | closes every handle still held, each for the first time |
| ProjectRegistry.LookupExactly | packages/go/canonicalfsrpc/server.go:620-633 | a lookup renews the lease it finds, which then decides later lookups, and only sweeps the other projects |
| ProjectRegistry.RegistersExactly | packages/go/canonicalfsrpc/server.go:295-306 | registration succeeds exactly when the server is open, a handle was opened, and the project is live or the quota is not used up |
| ProjectRegistry.OpenExactly | packages/go/canonicalfsrpc/server.go:307-312 | a registration installs the handle under a new lease that decides later lookups, and only sweeps the other projects |
| ProjectRegistry.OpenClosesReplaced | packages/go/canonicalfsrpc/server.go:307-312 | the new handle is open, and the one it replaces is closed |
| ProjectRegistry.TakeExactly | packages/go/canonicalfsrpc/server.go:635-649 | taking hands out exactly a live project's handle and only sweeps the other projects |
| ProjectRegistry.StepKeepsInv | packages/go/canonicalfsrpc/server.go:282-332 | every operation keeps slots and leases equal, the quota, and one fate for every handle: one slot, one pending close, or one close made |
| ProjectRegistry.RunsKeepInv | packages/go/canonicalfsrpc/server.go:282-332 | so does every run |
| ProjectRegistry.LookupGivesOpenHandle | packages/go/canonicalfsrpc/server.go:620-633 | in every run, a lookup never returns a handle that was closed or taken |
| ProjectRegistry.ClosedStaysEmpty | packages/go/canonicalfsrpc/server.go:219-235 | after the server closes, the registry is empty in every later state of the run |
| ProjectRegistry.ClosedOnceForAll | packages/go/canonicalfsrpc/server.go:219-235 | a handle that was closed is closed exactly once in every later state |
| ZipDirectory.FieldsReadBack | packages/go/canonicalfs/archive.go:440-459 | fields are read lowest byte first, wherever they stand |
| ZipDirectory.SignatureBytes | packages/go/canonicalfs/archive.go:440-483 | the signatures are `PK` and two more bytes in the file |
| ZipDirectory.EmptyArchiveIsWellFormed | packages/go/canonicalfs/archive.go:430-502 | a bare end record of zeros is a well-formed archive without entries |
| ZipDirectory.TilesArePrefixes | packages/go/canonicalfs/archive.go:476-495 | any tiling of a stretch by headers begins with the tiling of a shorter stretch and goes on with a header there |
| ZipDirectory.TilingIsUnique | packages/go/canonicalfs/archive.go:476-495 | a directory is tiled in one way, hence has one entry count |
| ZipDirectory.WalkDirectory | packages/go/canonicalfs/archive.go:474-499 | the walk accepts exactly a stretch tiled by `count` signed headers, and reports the limit exactly when one header too many follows |
| ZipDirectory.CheckZipEntryCount | packages/go/canonicalfs/archive.go:430-502 | accepts exactly when the last end record whose comment fits ends the file, is single-disk, without ZIP64, and its directory is tiled by exactly the entries it counts (sections 4.3.12, 4.3.15 and 4.3.16 of the PKWARE APPNOTE); reports a limit exactly under the named conditions |
| ZipDirectory.JudgeEndRecord | packages/go/canonicalfs/archive.go:447-499 | the same for one end record |
| ZipBudget.ZipEntryPathExactly | packages/go/canonicalfs/archive.go:356-373 | which entry names are accepted and as which path: relative, never dipping, not cancelling out, and like a drive neither as written nor once cleaned |
| ZipBudget.MemberPathKeepsPlace | packages/go/canonicalfs/archive.go:356-373 | an accepted path leads where its entry name leads, in every tree without links |
| ZipBudget.RefusedEntries | packages/go/canonicalfs/archive.go:356-373 | `../evil` is refused, and so is `x/../C:foo`, which only cleaning turns into a drive-like path |
| ZipBudget.MemberPathIsConfined | packages/go/canonicalfs/archive.go:356-373 | an accepted member path is a nonempty list of names that cleaning leaves alone: not rooted, not climbing, not a drive |
| ZipBudget.SlashesCountParts | packages/go/canonicalfs/archive.go:234-239 | counting slashes counts components |
| ZipBudget.ZipPathBudget.Add | packages/go/canonicalfs/archive.go:241-264 | in 64-bit integers, a path is charged exactly when the unbounded sums stay within every limit; a refusal charges nothing |
| ZipBudget.RatioTest | packages/go/canonicalfs/archive.go:176-179 | `(e - 1) / c >= m` holds exactly when `e > m * c` |
| ZipBudget.CheckEntry | packages/go/canonicalfs/archive.go:157-179 | one entry passes exactly when it fits by itself and every running sum stays within its limit |
| ZipBudget.Preflight | packages/go/canonicalfs/archive.go:152-180 | the first pass accepts exactly an archive that is admissible as a whole, and has then charged its components and directories to the unit |
| ZipStream.ReadStep | packages/go/canonicalfs/archive.go:403-405 | reading through a buffer of any size, whatever pieces the reader gives, copies the same bytes |
| ZipStream.CopiedIsPrefix | packages/go/canonicalfs/archive.go:403-408 | a copy holds the first bytes of the member, no more than its allowance, and stops for the reason it gives |
| ZipStream.SucceedsExactly | packages/go/canonicalfs/archive.go:403-417 | copy and probe succeed exactly when the member ends properly within the allowance and the probe finds nothing after an end already seen, or when the reader stalls just as the allowance is used up |
| ZipStream.CompleteExactly | packages/go/canonicalfs/archive.go:409-417 | a success is a complete copy exactly when it is no stall before the end of the data |
| ZipStream.TrustedExactly | packages/go/canonicalfs/archive.go:409-417 | under every allowance success means a complete copy, exactly for readers that never stall before their last byte |
| ZipStream.NeverIdleIsTrusted | packages/go/canonicalfs/archive.go:409-417 | readers that never answer empty without an end can be trusted under every allowance |
| ZipStream.StalledReaderPasses | packages/go/canonicalfs/archive.go:410-417 | an empty read without an end, just when the allowance is used up, lets an incomplete copy pass |
| ZipStream.LimitedCopy | packages/go/canonicalfs/archive.go:403-408 | the copy loop: the destination never holds more than the limit in any state, and holds exactly the copied bytes, or as many as it takes |
| ZipBudget.ParentIsShallower | packages/go/canonicalfs/archive.go:203-210 | the parent of a member path is one component shorter, and parent and base name make the path again |
| ZipBudget.ExtractFile | packages/go/canonicalfs/archive.go:387-418 | copy, probe and close: succeeds exactly when each does, writes no byte beyond the limit, and keeps a file only on success |
| ZipBudget.ExtractedExactly | packages/go/canonicalfs/archive.go:387-418 | a member is extracted exactly when its files open and close, its reader ends properly within the limit or stalls just there, and the destination takes the copy |
| ZipBudget.Extract | packages/go/canonicalfs/archive.go:189-217 | fails exactly when some member does under the allowance the earlier ones leave, and stops there; gives the bytes and the file of every member reached; whatever was declared and whatever readers do, no member writes more than the entry limit, all of them no more than the total limit, and the components walked, of parents for files, are those charged, within the directory limit |
| ZipBudget.ExtractionSucceedsExactly | packages/go/canonicalfs/archive.go:189-217 | with readers that never answer empty without an end and end properly, and destinations that open, take the data and close, extraction succeeds exactly when the real data fits the limits, each member by itself and all together, and has then written all of it |
| Utf8.DecodedIsEncoded | packages/c/src/canonicalpath.c:159-172 | what the validator's step reads is the encoding of the scalar value it computes |
| Utf8.EncodedIsDecoded | packages/c/src/canonicalpath.c:159-172 | and it reads every encoding, whatever follows |
| Utf8.EncodingIsInjective | packages/c/src/canonicalpath.c:156-175 | the scalar values behind accepted bytes are unique |
| Utf8.ValidUtf8 | packages/c/src/canonicalpath.c:156-175 | accepts exactly the byte strings that encode some sequence of Unicode scalar values (sections 3 and 4 of RFC 3629) |
| Utf8.MasksAreRemainders | packages/c/src/canonicalpath.c:162-170 | the masks and shifts of the code are the remainders and products of the model |
| BurstCopy.TraversalTestExactly | packages/unity/Runtime/CanonicalPathBurst.cs:83-99 | the dot counter refuses exactly `..` and names that end in exactly three dots |
| BurstCopy.ThreeDotNameIsRefused | packages/unity/Runtime/CanonicalPathBurst.cs:83-106 | the text `a...` is refused whatever the capacity |
| BurstCopy.AcceptsExactly | packages/unity/Runtime/CanonicalPathBurst.cs:53-110 | what is accepted, by units: relative, without NUL, not starting like a drive, no refused component, and fitting with its last separator |
| BurstCopy.PiecesExactly | packages/unity/Runtime/CanonicalPathBurst.cs:31-34 | components are cut at both separators and nowhere else |
| BurstCopy.CopyRelativeCanonical | packages/unity/Runtime/CanonicalPathBurst.cs:63-110 | succeeds exactly on the inputs it should accept within the capacity; the output, even in place, is the nonempty components joined by single slashes, nothing past the capacity is written, and each status tells why |
| BurstCopy.CopyPieces | packages/unity/Runtime/CanonicalPathBurst.cs:75-109 | the same for the loop, after the prefix test |
| BurstCopy.PiecesOfJoin | packages/unity/Runtime/CanonicalPathBurst.cs:85-103 | the pieces of joined components are those components |
| BurstCopy.CopyIsStable | packages/unity/Runtime/CanonicalPathBurst.cs:63-110 | a result has no `..`, no backslash and no trailing slash, and copying it again accepts it within the same capacity and changes nothing |
| AliasRules.KeyIsInjective | packages/ts/src/unity-gateway/broker.ts:189-191 | an alias key determines client type, client and environment |
| AliasRules.RefusedExactlyAsDuplicate | packages/ts/src/unity-gateway/broker.ts:58-65 | a registration that creates an alias is refused as a duplicate exactly when some alias has the same client type, client and environment |
| AliasRules.PlainRootExactly | packages/ts/src/unity-gateway/broker.ts:113-121 | which host roots are plain, by characters: absolute in the host's grammar and without dot components by its separators |
| AliasRules.KindExactly | packages/ts/src/unity-gateway/broker.ts:154-160 | which host kind an alias gets |
| AliasRules.AliasOptionsExactly | packages/ts/src/unity-gateway/broker.ts:154-170 | when an alias gets options, and which |
| AliasRules.CreatesExactly | packages/ts/src/unity-gateway/broker.ts:107-137 | when an alias is created, and with which fields |
| AliasRules.SoundIffReplayed | packages/ts/src/unity-gateway/broker.ts:107-170 | an alias is sound exactly when registering what it holds creates it again |
| AliasRules.AddKeepsSound | packages/ts/src/unity-gateway/broker.ts:58-65 | adding an alias keeps the others, keeps keys distinct and changes nothing else of the project |
| AliasRules.NewProjectIsSound | packages/ts/src/unity-gateway/broker.ts:12-38 | a new project's path is what its root normalizes to, all its aliases agree with it, and its own host root is the gateway alias |
| AliasRules.ProjectExactly | packages/ts/src/unity-gateway/broker.ts:12-38 | a new project's options, host root and number of aliases |
| AliasRules.AliasesReplay | packages/ts/src/unity-gateway/broker.ts:58-65 | a project is rebuilt from its own list of aliases |
| AliasRules.RunsStaySound | packages/ts/src/unity-gateway/broker.ts:12-65 | after any run of registrations, failed ones included, every project and alias is sound |
| AliasRules.FoundExactly | packages/ts/src/unity-gateway/broker.ts:71-76 | an alias is found exactly when it is the only one selected; an ambiguous selector is refused |
| AliasRules.FullSelectorFindsIt | packages/ts/src/unity-gateway/broker.ts:71-76 | client type, client and environment together are never ambiguous and find their alias |
| AliasRules.ResolvesExactly | packages/ts/src/unity-gateway/broker.ts:78-82 | which host root is handed out, by selector and aliases |
| AliasRules.ResolvedRootDenotesProject | packages/ts/src/unity-gateway/broker.ts:78-82 | every host root handed out belongs to an alias and normalizes to the project's canonical path |
| AliasBroker.CopyOptions | packages/ts/src/unity-gateway/broker.ts:172-179 | a copy says the same and shares no object, nested groups included |
| AliasBroker.CopyProject | packages/ts/src/unity-gateway/broker.ts:185-187 | the same for a whole project record |
| AliasBroker.CanonicalPathBroker.NativeOptions | packages/ts/src/unity-gateway/broker.ts:154-170 | the alias options are the registration's or the inherited ones, in objects of their own |
| AliasBroker.CanonicalPathBroker.CreatePathAlias | packages/ts/src/unity-gateway/broker.ts:107-137 | creates the alias that the rules define, or fails as they do |
| AliasBroker.CanonicalPathBroker.AddPathAlias | packages/ts/src/unity-gateway/broker.ts:58-65 | pushes the created alias unless its key is taken; a failure leaves the record as it was |
| AliasBroker.CanonicalPathBroker.RegisterPathAlias | packages/ts/src/unity-gateway/broker.ts:54-56 | every reachable registry stays sound; a failure changes nothing; the record returned shares nothing with the registry |
| AliasBroker.CanonicalPathBroker.RegisterProject | packages/ts/src/unity-gateway/broker.ts:12-38 | the same for projects; the registry keeps no object of the caller's registration |
| AliasBroker.CanonicalPathBroker.GetProject | packages/ts/src/unity-gateway/broker.ts:40-48 | returns a copy that shares nothing with the registry |
| AliasBroker.ForeignWritesAreHarmless | packages/ts/src/unity-gateway/broker.ts:172-187 | whatever is done to objects that are not the registry's own leaves the registry valid and as it was |
| AliasBroker.RewriteReturned | packages/ts/src/unity-gateway/broker.ts:40-42 | in particular, rewriting every level of a returned record |

## Left out

- HTTP, TLS, tokens, JSON, daemon commands and the remaining language ports.
- URI decoding: `Normalize` takes it as a function parameter for texts with a URI scheme, and the laws hold for every such function.
- Trimming of outer whitespace before normalization.
- Bytes against UTF-16: path texts are sequences of Dafny characters, where Go counts bytes and C# and TypeScript UTF-16 units. The grammar tests ASCII characters only. The glob matcher, the store and the Burst loop work on UTF-16 units, the UTF-8 validator and the ZIP check on bytes.
- Uppercasing in the Go device-name test is ASCII; the few other characters whose upper case is ASCII are not modelled.
- Collation order: a query takes the sort as a parameter, with the comparisons it makes and its result; every comparison is charged.
- ScopedBridge.FakeUnityBridge.ScopedEntries: the order of the map is an explicit field, the examined-entry cap is implied by the equal store cap, and artifact references, which repeat scope and path, are not part of an entry.
- The scopes that are not backed by the workflow store (`unity_asset`, `package_manifest`, `gateway_cache`, `temp_session`).
- Which error a scoped path reports where the code has URI and encoding codes of its own: one code stands for them.
- Admission: time is an integer clock, a connection without an admitted socket (an embedded handler) is not a state, and the accepting loop is one thread.
- Fairness: `OverdueIsPursued` and `RankNeverGrows` give the rank argument, not a temporal statement about schedulers.
- The allowed-root handles of the daemon, request decoding, and errors returned by closing a handle.
- ProjectRegistry.Server.OpenProject: what authorization opens is a parameter, required to be a handle never issued before.
- Filesystem effects of extraction: whether files open, how many bytes a destination takes and whether closing it succeeds are fields of an entry; directory symlinks, timeouts other than as failing reads, and the default limits are not modelled. The second pass starts from an archive that passed the first.
- ZipDirectory.CheckZipEntryCount: reading the file never fails.
- Utf8.ValidUtf8: bits are written as arithmetic; `MasksAreRemainders` links the two forms.
- BurstCopy.CopyRelativeCanonical: the output buffer may be the input buffer, and partial overlap of two buffers is not modelled.
- Project root normalization inside the broker is a parameter, a function of text and options; the laws hold for every such function.
- AliasBroker: the list of aliases in a record is a sequence field, so that only records, options and option groups can be shared; a key present with no value in a selector counts as absent.
