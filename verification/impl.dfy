/**
 * The request-handling core, `XnmpImpl`: the per-mode search directories,
 * the registry of running hosts (handle to cancellation token), and the
 * GetManifest, Start and Close operations.
 *
 * The random source, the outcome of spawning a host and the outcome of
 * waiting for it are parameters. Start is modelled as the ordered list of
 * its observable effects.
 */
module Impl {
  import opened Wrappers
  import opened Text
  import opened Cancellation
  import opened Manifest

  /** The object path the proxy is exported at; running-host handles live below it. */
  const ObjectPath: string := "/org/freedesktop/nativemessagingproxy"

  newtype uint32 = x: int | 0 <= x < 0x1_0000_0000

  /** The 64-bit key `(hi << 32) | lo` made of two `g_random_int` draws. */
  function DrawKey(hi: uint32, lo: uint32): (key: nat)
    ensures key < 0x1_0000_0000_0000_0000
    ensures key / 0x1_0000_0000 == hi as nat && key % 0x1_0000_0000 == lo as nat
  {
    hi as nat * 0x1_0000_0000 + lo as nat
  }

  /** The handle for a key: `ObjectPath "/<key in decimal>"`. */
  function HandleOf(key: nat): string {
    ObjectPath + "/" + Decimal(key)
  }

  /** A string shaped like a handle: the prefix, a slash and decimal digits. */
  predicate IsHandle(h: string) {
    && |h| > |ObjectPath| + 1
    && h[..|ObjectPath| + 1] == ObjectPath + "/"
    && forall i :: |ObjectPath| + 1 <= i < |h| ==> IsDigit(h[i])
  }

  /** The key a handle was made from. */
  function KeyOfHandle(h: string): nat
    requires IsHandle(h)
  {
    var digits := h[|ObjectPath| + 1..];
    assert forall i :: 0 <= i < |digits| ==> IsDigit(digits[i]) by {
      forall i | 0 <= i < |digits| ensures IsDigit(digits[i]) {
        assert digits[i] == h[|ObjectPath| + 1 + i];
      }
    }
    DecimalValue(digits)
  }

  /** Every handle is handle-shaped and gives back its key; so two keys give
      the same handle only if they are equal. */
  lemma HandleRoundTrip(key: nat, other: nat)
    ensures IsHandle(HandleOf(key)) && KeyOfHandle(HandleOf(key)) == key
    ensures HandleOf(key) == HandleOf(other) ==> key == other
  {
    var h := HandleOf(key);
    assert h[|ObjectPath| + 1..] == Decimal(key);
    DecimalRoundTrip(key);
    if HandleOf(key) == HandleOf(other) {
      assert HandleOf(other)[|ObjectPath| + 1..] == Decimal(other);
      DecimalInjective(key, other);
    }
  }

  /** The key of the `n`-th pair of draws. */
  function PairKey(draws: seq<uint32>, n: nat): nat
    requires 2 * n + 1 < |draws|
  {
    DrawKey(draws[2 * n], draws[2 * n + 1])
  }

  /** The `n`-th pair of draws gives a handle not in `running`. */
  predicate FreeDrawAt(running: map<string, Token>, draws: seq<uint32>, n: nat) {
    2 * n + 1 < |draws| && HandleOf(PairKey(draws, n)) !in running
  }

  /** The random source eventually gives a handle not in `running`. */
  ghost predicate HasFreeDraw(running: map<string, Token>, draws: seq<uint32>) {
    exists n: nat :: FreeDrawAt(running, draws, n)
  }

  /** The environment and build configuration the search directories come
      from: the `XNMP_HOST_LOCATIONS` variable, the home and user
      configuration directories, and the configured SYSCONFDIR and LIBDIR. */
  datatype Environment = Environment(
    hostLocations: Option<string>,
    homeDir: string,
    userConfigDir: string,
    sysconfDir: string,
    libDir: string)

  /** The documented Chrome and Chromium host locations: two per-user
      directories, two fixed system ones, two under the configured prefix. */
  function ChromiumDefaultPaths(env: Environment): (paths: seq<string>)
    ensures |paths| == 6
  {
    [ BuildFilename(BuildFilename(env.userConfigDir, "google-chrome"), "NativeMessagingHosts"),
      BuildFilename(BuildFilename(env.userConfigDir, "chromium"), "NativeMessagingHosts"),
      "/etc/opt/chrome/native-messaging-hosts",
      "/etc/chromium/native-messaging-hosts",
      env.sysconfDir + "/opt/chrome/native-messaging-hosts",
      env.sysconfDir + "/chromium/native-messaging-hosts" ]
  }

  /** The documented Firefox host locations: two per-user directories, two
      fixed system ones, one under the configured prefix. */
  function MozillaDefaultPaths(env: Environment): (paths: seq<string>)
    ensures |paths| == 5
  {
    [ BuildFilename(BuildFilename(env.homeDir, ".mozilla"), "native-messaging-hosts"),
      BuildFilename(BuildFilename(env.userConfigDir, "mozilla"), "native-messaging-hosts"),
      "/usr/lib/mozilla/native-messaging-hosts",
      "/usr/lib64/mozilla/native-messaging-hosts",
      env.libDir + "/mozilla/native-messaging-hosts" ]
  }

  /** Every default directory is absolute when the home, configuration and
      prefix directories are. */
  lemma DefaultSearchPathsAbsolute(env: Environment)
    requires IsAbsolutePath(env.homeDir) && IsAbsolutePath(env.userConfigDir)
    requires IsAbsolutePath(env.sysconfDir) && IsAbsolutePath(env.libDir)
    ensures forall k :: 0 <= k < |ChromiumDefaultPaths(env)| ==> IsAbsolutePath(ChromiumDefaultPaths(env)[k])
    ensures forall k :: 0 <= k < |MozillaDefaultPaths(env)| ==> IsAbsolutePath(MozillaDefaultPaths(env)[k])
  {
  }

  /** The reply to Close: it always completes. */
  datatype CloseReply = CloseCompleted

  /** How the wait for a started host ends: the host process exits (its
      status only reaches the log), or a Close for its handle fires the
      handle's token first. */
  datatype WaitOutcome = HostExited(success: bool) | CloseRequested

  /** What Start does that the outside world can observe, in order. */
  datatype Effect =
    | ReplyError(error: DbusError)
    | Spawn(argv: seq<string>)
    | Register(handle: string)
    | ReplyStarted(handle: string)
    | AwaitHost(outcome: WaitOutcome)
    | ForceExit
    | EmitClosed(handle: string)
    | Unregister(handle: string)

  /** The argument vector a host is spawned with: the host's path, the
      manifest's own file name in Mozilla mode only, and the extension id or
      origin last. */
  function LaunchArgv(mode: Mode, hostPath: string, manifestFilename: string, extensionOrOrigin: string): (argv: seq<string>)
    ensures 2 <= |argv| <= 3 && |argv| + 1 <= 4
    ensures argv[0] == hostPath && argv[|argv| - 1] == extensionOrOrigin
    ensures |argv| == 3 <==> mode == Mozilla
    ensures mode == Mozilla ==> argv[1] == manifestFilename
    ensures mode == Chromium ==> argv == [hostPath, extensionOrOrigin]
  {
    var withPath := [hostPath];
    var withManifest := if mode == Mozilla then withPath + [manifestFilename] else withPath;
    withManifest + [extensionOrOrigin]
  }

  /** An unrecognised mode string launches hosts exactly as "mozilla" does. */
  lemma UnknownModeLaunchesAsMozilla(mode: string, hostPath: string, manifestFilename: string, extensionOrOrigin: string)
    requires mode != "chromium"
    ensures LaunchArgv(ModeFromString(mode), hostPath, manifestFilename, extensionOrOrigin)
            == LaunchArgv(ModeFromString("mozilla"), hostPath, manifestFilename, extensionOrOrigin)
            == [hostPath, manifestFilename, extensionOrOrigin]
  {
  }

  /** Adding a new key and then removing it gives the map back. */
  lemma RemoveAddedKey(m: map<string, Token>, k: string, v: Token)
    requires k !in m
    ensures m[k := v] - {k} == m
  {
  }

  class XnmpImpl {
    var chromiumSearchPaths: seq<string>
    var mozillaSearchPaths: seq<string>
    /** The running hosts: handle to the token that Close fires. */
    var running: map<string, Token>
    var tokens: TokenPool

    /** Every registered handle is handle-shaped and holds a token of its
        own that was created by this registry. */
    ghost predicate Valid()
      reads this
    {
      && tokens.Valid()
      && (forall h :: h in running ==> IsHandle(h) && running[h] < tokens.issued)
      && (forall h, h' :: h in running && h' in running && h != h' ==> running[h] != running[h'])
    }

    /** `xnmp_impl_new`: no running hosts, and the search directories set up. */
    constructor (env: Environment)
      ensures Valid()
      ensures running == map[] && tokens == TokenPool(0, {})
      ensures env.hostLocations.Some? ==>
                chromiumSearchPaths == mozillaSearchPaths == SplitOn(env.hostLocations.value, ':')
      ensures env.hostLocations.None? ==>
                chromiumSearchPaths == ChromiumDefaultPaths(env) && mozillaSearchPaths == MozillaDefaultPaths(env)
    {
      running := map[];
      tokens := TokenPool(0, {});
      new;
      EnsureManifestSearchPaths(env);
    }

    /** `ensure_manifest_search_paths`: the override variable, when set, gives
        both modes the same `':'`-split list (no directories at all when it is
        empty); otherwise each mode's documented directories are appended in order. */
    method EnsureManifestSearchPaths(env: Environment)
      modifies this
      ensures running == old(running) && tokens == old(tokens)
      ensures env.hostLocations.Some? ==>
                chromiumSearchPaths == mozillaSearchPaths == SplitOn(env.hostLocations.value, ':')
      ensures env.hostLocations.Some? && env.hostLocations.value == "" ==> chromiumSearchPaths == []
      ensures env.hostLocations.None? ==>
                chromiumSearchPaths == ChromiumDefaultPaths(env) && mozillaSearchPaths == MozillaDefaultPaths(env)
    {
      if env.hostLocations.Some? {
        chromiumSearchPaths := SplitOn(env.hostLocations.value, ':');
        mozillaSearchPaths := SplitOn(env.hostLocations.value, ':');
        return;
      }

      var paths: seq<string> := [];
      paths := paths + [BuildFilename(BuildFilename(env.userConfigDir, "google-chrome"), "NativeMessagingHosts")];
      paths := paths + [BuildFilename(BuildFilename(env.userConfigDir, "chromium"), "NativeMessagingHosts")];
      paths := paths + ["/etc/opt/chrome/native-messaging-hosts"];
      paths := paths + ["/etc/chromium/native-messaging-hosts"];
      paths := paths + [env.sysconfDir + "/opt/chrome/native-messaging-hosts"];
      paths := paths + [env.sysconfDir + "/chromium/native-messaging-hosts"];
      chromiumSearchPaths := paths;

      paths := [];
      paths := paths + [BuildFilename(BuildFilename(env.homeDir, ".mozilla"), "native-messaging-hosts")];
      paths := paths + [BuildFilename(BuildFilename(env.userConfigDir, "mozilla"), "native-messaging-hosts")];
      paths := paths + ["/usr/lib/mozilla/native-messaging-hosts"];
      paths := paths + ["/usr/lib64/mozilla/native-messaging-hosts"];
      paths := paths + [env.libDir + "/mozilla/native-messaging-hosts"];
      mozillaSearchPaths := paths;
    }

    /** `xnmp_impl_get_search_paths`. */
    function SearchPathsFor(mode: Mode): seq<string>
      reads this
    {
      match mode
      case Chromium => chromiumSearchPaths
      case Mozilla => mozillaSearchPaths
    }

    /** `register_running`: draws keys until their handle is unused, then
        maps that handle to a newly created token. The handle was absent
        before, every other entry is unchanged, and the token is live. */
    method RegisterRunning(draws: seq<uint32>) returns (handle: string, token: Token)
      requires Valid()
      requires HasFreeDraw(running, draws)
      modifies this
      ensures Valid()
      ensures handle !in old(running) && IsHandle(handle)
      ensures running == old(running)[handle := token]
      ensures token == old(tokens.issued) && tokens == old(tokens).Create() && tokens.IsLive(token)
      ensures exists n: nat :: FreeDrawAt(old(running), draws, n) && handle == HandleOf(PairKey(draws, n))
                          && forall m :: 0 <= m < n ==> !FreeDrawAt(old(running), draws, m)
      ensures chromiumSearchPaths == old(chromiumSearchPaths) && mozillaSearchPaths == old(mozillaSearchPaths)
    {
      ghost var w: nat :| FreeDrawAt(running, draws, w);
      var n := 0;
      handle := HandleOf(DrawKey(draws[0], draws[1]));
      while handle in running
        invariant n <= w
        invariant handle == HandleOf(PairKey(draws, n))
        invariant forall m :: 0 <= m < n ==> !FreeDrawAt(running, draws, m)
        decreases w - n
      {
        n := n + 1;
        handle := HandleOf(DrawKey(draws[2 * n], draws[2 * n + 1]));
      }
      HandleRoundTrip(PairKey(draws, n), 0);
      token := tokens.issued;
      tokens := tokens.Create();
      running := running[handle := token];
    }

    /** `unregister_running`: removes the handle if present and nothing else. */
    method UnregisterRunning(handle: string)
      requires Valid()
      modifies this
      ensures Valid()
      ensures running == old(running) - {handle} && tokens == old(tokens)
      ensures chromiumSearchPaths == old(chromiumSearchPaths) && mozillaSearchPaths == old(mozillaSearchPaths)
    {
      running := running - {handle};
    }

    /** `cancel_running`: fires the handle's token if the handle is
        registered, and does nothing otherwise; the registry keeps the entry. */
    method CancelRunning(handle: string)
      requires Valid()
      modifies this
      ensures Valid()
      ensures running == old(running)
      ensures handle in running ==> tokens == old(tokens).Cancel(running[handle])
      ensures handle !in running ==> tokens == old(tokens)
      ensures forall h :: h in running && h != handle ==> (running[h] in tokens.fired <==> running[h] in old(tokens.fired))
      ensures chromiumSearchPaths == old(chromiumSearchPaths) && mozillaSearchPaths == old(mozillaSearchPaths)
    {
      if handle in running {
        tokens := tokens.Cancel(running[handle]);
      }
    }

    /** `xnmp_impl_handle_close`: cancels the handle's host, whoever asks,
        and always replies success; an unknown handle changes nothing. */
    method HandleClose(handle: string) returns (reply: CloseReply)
      requires Valid()
      modifies this
      ensures Valid()
      ensures running == old(running)
      ensures handle in running ==> tokens == old(tokens).Cancel(running[handle])
      ensures handle !in running ==> tokens == old(tokens)
      ensures reply == CloseCompleted
      ensures chromiumSearchPaths == old(chromiumSearchPaths) && mozillaSearchPaths == old(mozillaSearchPaths)
    {
      CancelRunning(handle);
      reply := CloseCompleted;
    }

    /** `xnmp_impl_handle_get_manifest`: the bytes of the first acceptable
        manifest in the mode's directories, or the resolver's error. */
    method HandleGetManifest(hostName: string, mode: string, fs: FileSystem, parse: JsonParser)
      returns (reply: Result<seq<byte>, DbusError>)
      ensures var r := Resolve(hostName, SearchPathsFor(ModeFromString(mode)), fs, parse);
              reply == if r.Success? then Success(r.value.contents) else Failure(r.error)
      ensures !IsValidName(hostName) ==> reply == Failure(InvalidArgs)
      ensures reply.Failure? ==> reply.error in {InvalidArgs, FileNotFound}
    {
      var m := ModeFromString(mode);
      var found, _ := FindManifest(hostName, SearchPathsFor(m), fs, parse);
      if found.Failure? {
        return Failure(found.error);
      }
      reply := Success(found.value.contents);
    }

    /** `xnmp_impl_handle_start`, as the sequence of its effects. A resolve
        or spawn failure is answered with an error and registers nothing.
        Otherwise the host is registered before the reply carrying its
        handle; after the wait the host is force-exited, Closed is emitted
        with the same handle, and only then is the handle unregistered. A
        Close arriving during the wait (`CloseRequested`) fires the handle's
        token through `CancelRunning`. */
    method HandleStart(hostName: string, extensionOrOrigin: string, mode: string,
                       fs: FileSystem, parse: JsonParser,
                       spawnSucceeds: bool, draws: seq<uint32>, wait: WaitOutcome)
      returns (effects: seq<Effect>)
      requires Valid()
      requires HasFreeDraw(running, draws)
      modifies this
      ensures Valid()
      ensures running == old(running)
      ensures chromiumSearchPaths == old(chromiumSearchPaths) && mozillaSearchPaths == old(mozillaSearchPaths)
      ensures var r := Resolve(hostName, old(SearchPathsFor(ModeFromString(mode))), fs, parse);
              && (r.Failure? ==> effects == [ReplyError(r.error)] && tokens == old(tokens))
              && (r.Success? ==>
                    && r.value.fields.path.Some?
                    && var argv := LaunchArgv(ModeFromString(mode), r.value.fields.path.value, r.value.filename, extensionOrOrigin);
                    && (!spawnSucceeds ==> effects == [Spawn(argv), ReplyError(SpawnFailed)] && tokens == old(tokens))
                    && (spawnSucceeds ==>
                          && |effects| == 7
                          && effects[2].ReplyStarted?
                          && var h := effects[2].handle;
                          && effects == [Spawn(argv), Register(h), ReplyStarted(h), AwaitHost(wait), ForceExit, EmitClosed(h), Unregister(h)]
                          && h !in old(running) && IsHandle(h)
                          && tokens.issued == old(tokens.issued) + 1
                          && tokens.fired == old(tokens.fired) + (if wait == CloseRequested then {old(tokens.issued)} else {})))
    {
      var m := ModeFromString(mode);
      var found, _ := FindManifest(hostName, SearchPathsFor(m), fs, parse);
      if found.Failure? {
        return [ReplyError(found.error)];
      }

      var argv := LaunchArgv(m, found.value.fields.path.value, found.value.filename, extensionOrOrigin);
      effects := [Spawn(argv)];
      if !spawnSucceeds {
        return effects + [ReplyError(SpawnFailed)];
      }

      var handle, supervised := SuperviseHost(draws, wait);
      effects := effects + supervised;
    }

    /** The part of `xnmp_impl_handle_start` after a successful spawn: the
        host is registered under a fresh handle, the reply carries that
        handle, the wait ends (a Close during it fires the handle's token),
        the host is force-exited, Closed is emitted and the handle is
        unregistered, so the registry ends as it began. */
    method SuperviseHost(draws: seq<uint32>, wait: WaitOutcome) returns (handle: string, effects: seq<Effect>)
      requires Valid()
      requires HasFreeDraw(running, draws)
      modifies this
      ensures Valid()
      ensures running == old(running)
      ensures chromiumSearchPaths == old(chromiumSearchPaths) && mozillaSearchPaths == old(mozillaSearchPaths)
      ensures effects == [Register(handle), ReplyStarted(handle), AwaitHost(wait), ForceExit, EmitClosed(handle), Unregister(handle)]
      ensures handle !in old(running) && IsHandle(handle)
      ensures tokens.issued == old(tokens.issued) + 1
      ensures tokens.fired == old(tokens.fired) + (if wait == CloseRequested then {old(tokens.issued)} else {})
    {
      ghost var before, registry := tokens, running;
      var token;
      handle, token := RegisterRunning(draws);
      assert token == before.issued && tokens.fired == before.fired && tokens.issued == before.issued + 1;

      if wait == CloseRequested {
        CancelRunning(handle);
        assert tokens.fired == before.fired + {token};
      }

      UnregisterRunning(handle);
      RemoveAddedKey(registry, handle, token);
      effects := [Register(handle), ReplyStarted(handle), AwaitHost(wait), ForceExit, EmitClosed(handle), Unregister(handle)];
    }
  }
}
