# xdg-native-messaging-proxy: a Dafny model of the request-handling core

xdg-native-messaging-proxy is a D-Bus service that lets sandboxed browsers
find and launch native messaging hosts installed outside the sandbox. This
project models its core and proves properties of the model:

- the **manifest resolver**: the mode string, the host-name grammar
  `^\w+(\.\w+)*$`, manifest validation (`name`, `type == "stdio"`, absolute
  `path`), and the ordered search for `<dir>/<name>.json` over the mode's
  search directories, where the first acceptable candidate wins;
- the **search directories**: the `XNMP_HOST_LOCATIONS` override split at
  `':'` for both modes, or the documented per-mode default lists;
- **Start**: the launch arguments, and the order of its effects: resolve,
  spawn, register, reply, wait, force-exit, `Closed`, unregister;
- the **running-host registry**: handles `/org/freedesktop/nativemessagingproxy/<key>`
  drawn from a random source until unused, each mapped to a cancellation
  token that Close fires;
- the **client cancellation tracker**: one token per client unique name,
  shared by all of that client's requests, fired when the client leaves the
  bus or when the service is disposed.

Files:

- `wrappers.dfy`: `Option` and `Result`.
- `text.dfy`: `g_strsplit`-style splitting and joining, and decimal formatting.
- `cancellation.dfy`: cancellation tokens. A token is a number; a pool
  records how many tokens were created and which have fired. Firing is
  idempotent and never undone.
- `manifest.dfy`: the resolver. Loading a file is a lookup in a map from path
  to `Missing | IoError | Contents(bytes)`. JSON parsing is a given function
  from bytes to the optional `name`/`type`/`path` members.
- `impl.dfy`: class `XnmpImpl`. It holds the search directories, the registry,
  and the GetManifest, Start and Close operations.
- `service.dfy`: class `XnmpService`. It holds the per-client token table, the
  NameOwnerChanged handler, dispose, and the three bus method handlers.

The random source, the outcome of spawning a host and the outcome of waiting
for it are parameters of the model. A Close that arrives while Start waits is
the wait outcome `CloseRequested`, and the model then runs `CancelRunning`
on the handle.

An empty `XNMP_HOST_LOCATIONS` gives no search directories, because
`g_strsplit` splits "" into an empty vector (src/xnmp-impl.c:565-566). Every
lookup of a valid name then gives FileNotFound
(`XnmpImpl.EnsureManifestSearchPaths`). A leading, trailing or doubled ':' in
the variable gives an empty directory. `g_build_filename` skips it, so its
candidate is the bare `<name>.json`, relative to the working directory
(`Manifest.BuildFilename`).

## Model

| member | source | states |
|---|---|---|
| Manifest.ModeFromString | src/xnmp-impl.c:162-172 | Chromium exactly when the string is "chromium"; "mozilla", "firefox", the empty string and every other string give Mozilla |
| Manifest.ValidNameCharacterwise | src/xnmp-impl.c:174-186 | a host name is accepted iff it is non-empty, has only ASCII word characters and dots, and has no leading, trailing or doubled dot |
| Manifest.ValidNameIsDottedGroups | src/xnmp-impl.c:177-185 | a host name is accepted iff it is one or more non-empty groups of word characters joined by single dots |
| Manifest.CandidateStaysInDirectory | src/xnmp-impl.c:236-252 | for an accepted name and a non-empty directory the candidate file is the directory, one '/', then a base name with no '/'; for an empty directory it is the bare base name `<name>.json`; the name is neither "." nor ".." |
| Manifest.ValidateManifest | src/xnmp-impl.c:188-223 | a manifest is accepted iff `name` is the requested name, `type` is "stdio" and `path` is present and absolute; the checks run in the order name, type, path, and a missing member rejects |
| Manifest.ScanFrom | src/xnmp-impl.c:247-312 | the search only fails with FileNotFound; what it returns was loaded from its file name, parses to its members, and passes validation |
| Manifest.FindManifest | src/xnmp-impl.c:225-313 | the loop returns the resolver's outcome and loads exactly the files the resolver reads; an invalid name gives InvalidArgs and no file is loaded; the winner is the last file loaded |
| Manifest.ProbeCandidate | src/xnmp-impl.c:249-304 | one iteration of the search loop: the candidate file is `<dir>/<name>.json`; a missing, unreadable, non-JSON or invalid candidate is skipped; an accepted one is returned with its bytes, file name and members, and it loaded, parsed and validated |
| Manifest.ResolveFirstAccepted | src/xnmp-impl.c:245-306 | if directory i is the first whose candidate loads, parses and validates, the result is that candidate, named `<dir_i>/<name>.json` (`<name>.json` for an empty directory), and only the candidates of directories 0..i are loaded |
| Manifest.ResolveSuccessIsFirstAccepted | src/xnmp-impl.c:237-306 | a successful search implies a valid name and a directory whose candidate is the result while every earlier directory's candidate was rejected |
| Manifest.ResolveNotFoundIffNoneAccepted | src/xnmp-impl.c:261-312 | for a valid name the result is FileNotFound iff no candidate is accepted; in that case every candidate was loaded, in order, so a failing candidate never stops the scan |
| Text.SplitOn | src/xnmp-impl.c:565-566 | `g_strsplit` gives no pieces exactly for the empty string |
| Text.SplitJoinRoundTrip | src/xnmp-impl.c:562-567 | `g_strsplit` at ':': a non-empty string splits into separator-free pieces that join back to it; separator-free pieces other than the lone empty piece split back from their join |
| Text.Decimal | src/xnmp-impl.c:389 | the handle's key is written as decimal digits with no leading zero |
| Text.DecimalRoundTrip | src/xnmp-impl.c:389 | reading the decimal notation of a key gives the key back |
| Text.DecimalInjective | src/xnmp-impl.c:389 | different keys have different decimal notations |
| Impl.DrawKey | src/xnmp-impl.c:387-388 | the key, the first draw shifted left by 32 bits and combined with the second, is below 2^64, and its high and low 32-bit halves are the two draws |
| Impl.HandleRoundTrip | src/xnmp-impl.c:389-391 | every handle has the `/org/freedesktop/nativemessagingproxy/` prefix followed by digits and gives back its key, so different keys give different handles |
| Impl.ChromiumDefaultPaths | src/xnmp-impl.c:573-586 | without the override, Chromium searches six directories |
| Impl.MozillaDefaultPaths | src/xnmp-impl.c:591-608 | without the override, Mozilla searches five directories |
| Impl.DefaultSearchPathsAbsolute | src/xnmp-impl.c:570-608 | every default directory is absolute when the home, user configuration, SYSCONFDIR and LIBDIR directories are |
| Impl.LaunchArgv | src/xnmp-impl.c:474-484 | argv is `[path, manifest file, extension]` in Mozilla mode and `[path, extension]` in Chromium mode, so at most 3 entries plus the terminator |
| Impl.UnknownModeLaunchesAsMozilla | src/xnmp-impl.c:474-484 | any mode string other than "chromium" gives the same argv as "mozilla" |
| Impl.XnmpImpl.constructor | src/xnmp-impl.c:638-650 | a new core has an empty registry and no tokens, and its search directories are set up |
| Impl.XnmpImpl.EnsureManifestSearchPaths | src/xnmp-impl.c:556-609 | with the override set, both modes get its ':'-split, and an empty override gives no directories; otherwise each mode gets its default list in order |
| Impl.XnmpImpl.RegisterRunning | src/xnmp-impl.c:374-403 | the handle of the first draw pair whose handle is unused; it was absent before and now maps to a new live token; every other entry is unchanged |
| Impl.XnmpImpl.UnregisterRunning | src/xnmp-impl.c:405-412 | removes only the given handle, and does nothing if it is absent; no token changes |
| Impl.XnmpImpl.CancelRunning | src/xnmp-impl.c:414-426 | fires the handle's token iff the handle is registered; the registry and every other handle's token are unchanged |
| Impl.XnmpImpl.HandleClose | src/xnmp-impl.c:539-554 | cancels the handle's host if it is registered; an unknown handle changes nothing; the reply is always success |
| Impl.XnmpImpl.HandleGetManifest | src/xnmp-impl.c:315-339 | replies with the bytes of the resolver's manifest for the parsed mode, or its InvalidArgs or FileNotFound error |
| Impl.XnmpImpl.SuperviseHost | src/xnmp-impl.c:498-536 | after a successful spawn: register h, reply h, wait, force-exit, Closed h, unregister h, for a fresh handle-shaped h; the registry ends as it began; one token is created, and it has fired iff a Close arrived during the wait |
| Impl.XnmpImpl.HandleStart | src/xnmp-impl.c:428-537 | a resolve failure gives only an error reply; a spawn failure gives only an error reply after the spawn; neither registers anything. On success the effects are spawn, register h, reply h, wait, force-exit, Closed h, unregister h, with h a fresh handle. The registry ends as it began |
| Cancellation.TokenPool.Create | src/xnmp-impl.c:395 | a new token is live, it was not live before, and every live token stays live |
| Cancellation.TokenPool.Cancel | src/xnmp-impl.c:424 | firing a token fires it and keeps every fired token fired; no other token changes; firing a created token keeps a pool valid |
| Cancellation.CancelIdempotent | src/xnmp-impl.c:424 | firing a token twice is the same as firing it once |
| Service.XnmpService.constructor | src/xnmp-service.c:251-257 | the client table starts empty, and the core starts with an empty registry |
| Service.XnmpService.EnsureCancellable | src/xnmp-service.c:51-75 | a tracked client gets its existing token and the table is unchanged; an untracked client gets a new live token stored under its name, and the table gains exactly that entry |
| Service.XnmpService.OnNameOwnerChanged | src/xnmp-service.c:208-237 | only a unique name going from itself to no owner counts; then that client's entry is removed and its token fired, while other clients keep their live tokens; any other signal or an untracked name changes nothing |
| Service.XnmpService.Dispose | src/xnmp-service.c:177-192 | every tracked client's token is fired, and no other token changes |
| Service.XnmpService.HandleGetManifest | src/xnmp-service.c:77-105 | the request runs with its sender's token: a tracked sender's token is reused and nothing changes; an untracked sender gets a new live token and the table gains exactly that entry; no client token un-fires; the reply is the core's |
| Service.XnmpService.HandleStart | src/xnmp-service.c:107-138 | the request runs with its sender's token, obtained as for GetManifest, and no client token un-fires; the core's registry and search directories end as they began |
| Service.XnmpService.HandleClose | src/xnmp-service.c:140-166 | the request runs with its sender's token, obtained as for GetManifest, and no client token un-fires; the core fires the handle's token if registered, keeps its registry and search directories, and replies success |
| Service.SameSenderSharesToken | src/xnmp-service.c:99-101 | two requests from the same sender run with the same token |

## Left out

- `src/xdg-native-messaging-proxy.c` is not part of this model. It holds option parsing, locale setup, SIGHUP handling, bus-name ownership, the main loop and the exit codes.
- D-Bus plumbing is not modelled: the skeleton and interface table, exporting the object, subscribing to NameOwnerChanged, signal transport, and passing descriptors in a `GUnixFDList`. Replies and the `Closed` signal are values or effects in the model. The `Closed` effect records the handle but not the destination: the source sends the signal only to the client that called Start.
- The race between a request's work and its client's token (`dex_future_all_race`) is not modelled. Neither is the scheduling of fibers, nor the abandonment of a request whose client token fires first. The handlers only show which token a request obtains.
- Concurrency beyond one interleaving is not modelled: the only concurrent event is a Close that arrives while Start waits (`CloseRequested`). Other requests running between Start's steps are not modelled.
- Spawning and waiting are not modelled: pipes, descriptors, `g_subprocess_force_exit` and the exit status. Spawn success is a boolean parameter, and the wait result is a parameter. A `HostExited(success)` outcome is only recorded in the trace, as the source only logs it; `CloseRequested` also fires the handle's token.
- Loading files and parsing JSON are given functions. A manifest whose root is not a JSON object, or whose member is not a string, counts as having that member missing.
- `BuildFilename` joins a non-empty directory and a base name with one '/', and gives the bare base name for an empty directory. It does not model `g_build_filename`'s merging of repeated separators, or `GFile`'s canonicalisation of the path (resolving "." and "..", and making relative directories absolute).
- A relative candidate, such as the one an empty directory gives, is looked up in the file map as written. Resolving it against the working directory is not modelled.
- Manifest.IsValidName uses ASCII word characters. GLib's `\w` may also match Unicode word characters, and `$` also matches before one final newline. These differences are not modelled.
- The GetManifest reply carries the loaded bytes. Marshalling them as a NUL-terminated byte string is not modelled.
- Impl.XnmpImpl.RegisterRunning: requires that the random source eventually gives an unused handle (`HasFreeDraw`). The source simply keeps drawing, and without this assumption its loop cannot be shown to end. The draws are a sequence parameter rather than `g_random_int`.
- Impl.XnmpImpl.HandleStart: carries the same `HasFreeDraw` requirement on the random source, even on paths that never register.
- Service.XnmpService.HandleStart: states only the token bookkeeping and that the registry ends unchanged. The effect trace is stated by Impl.XnmpImpl.HandleStart.
- Service.XnmpService.Dispose: releasing the core is not modelled. Its registry is freed without firing the running hosts' tokens.
- Reference counting, the `*_data_new`/`*_data_free` helpers, memory release and logging are left out.
- The home directory, the user configuration directory, SYSCONFDIR and LIBDIR are parameters (`Environment`).
