/**
 * The bus-facing service, `XnmpService`: it owns the core and keeps one
 * cancellation token per client (keyed by the client's unique bus name).
 * Every request a client makes obtains that client's token; the token fires
 * when the client leaves the bus or when the service is disposed.
 */
module Service {
  import opened Wrappers
  import opened Cancellation
  import opened Manifest
  import opened Impl

  /** The NameOwnerChanged filter: a unique name (one starting with ':')
      went from being owned by itself to having no owner. */
  predicate IsClientDisappearance(name: string, from: string, to: string) {
    |name| > 0 && name[0] == ':' && from == name && to == ""
  }

  class XnmpService {
    const impl: XnmpImpl
    /** Client unique name to that client's token. */
    var cancellables: map<string, Token>
    var tokens: TokenPool

    /** Every tracked client holds a live token of its own. */
    ghost predicate Valid()
      reads this, impl
    {
      && impl.Valid()
      && tokens.Valid()
      && (forall s :: s in cancellables ==> tokens.IsLive(cancellables[s]))
      && (forall s, s' :: s in cancellables && s' in cancellables && s != s' ==> cancellables[s] != cancellables[s'])
    }

    /** `init_xnmp_service`: a new core and no tracked clients. */
    constructor (env: Environment)
      ensures Valid() && fresh(impl)
      ensures cancellables == map[] && tokens == TokenPool(0, {})
      ensures impl.running == map[]
    {
      impl := new XnmpImpl(env);
      cancellables := map[];
      tokens := TokenPool(0, {});
    }

    /** `ensure_cancellable`: a tracked client gets its token back and the
        table is as it was; an untracked client gets a new live token, stored
        under its name, and the table gains exactly that entry. */
    method EnsureCancellable(sender: string) returns (token: Token)
      requires Valid()
      modifies this
      ensures Valid()
      ensures sender in old(cancellables) ==>
                token == old(cancellables[sender]) && cancellables == old(cancellables) && tokens == old(tokens)
      ensures sender !in old(cancellables) ==>
                && token == old(tokens.issued)
                && cancellables == old(cancellables)[sender := token]
                && tokens == old(tokens).Create()
      ensures sender in cancellables && cancellables[sender] == token && tokens.IsLive(token)
      ensures old(tokens.fired) <= tokens.fired
    {
      if sender in cancellables {
        // steal the entry, then insert it again
        token := cancellables[sender];
        cancellables := cancellables - {sender};
      } else {
        token := tokens.issued;
        tokens := tokens.Create();
      }
      cancellables := cancellables[sender := token];
      assert sender in old(cancellables) ==> cancellables == old(cancellables);
    }

    /** `on_name_owner_changed`: when a tracked client disappears its entry
        is removed and its token fired; every other client keeps its entry
        and its live token. Any other signal, or an untracked name, changes
        nothing. */
    method OnNameOwnerChanged(name: string, from: string, to: string)
      requires Valid()
      modifies this
      ensures Valid()
      ensures IsClientDisappearance(name, from, to) && name in old(cancellables) ==>
                && cancellables == old(cancellables) - {name}
                && tokens == old(tokens).Cancel(old(cancellables)[name])
      ensures !(IsClientDisappearance(name, from, to) && name in old(cancellables)) ==>
                cancellables == old(cancellables) && tokens == old(tokens)
      ensures old(tokens.fired) <= tokens.fired
    {
      if !IsClientDisappearance(name, from, to) {
        return;
      }
      if name in cancellables {
        var token := cancellables[name];
        cancellables := cancellables - {name};
        tokens := tokens.Cancel(token);
      }
    }

    /** `xnmp_service_dispose`: fires the token of every tracked client, then
        drops the table. */
    method Dispose()
      requires Valid()
      modifies this
      ensures Valid()
      ensures tokens.issued == old(tokens.issued)
      ensures tokens.fired == old(tokens.fired) + old(cancellables).Values
      ensures cancellables == map[]
    {
      var pending := cancellables.Keys;
      while pending != {}
        invariant pending <= cancellables.Keys
        invariant cancellables == old(cancellables) && tokens.issued == old(tokens.issued)
        invariant tokens.fired == old(tokens.fired) + set s | s in cancellables.Keys - pending :: cancellables[s]
        decreases pending
      {
        var s :| s in pending;
        tokens := tokens.Cancel(cancellables[s]);
        pending := pending - {s};
      }
      assert cancellables.Keys - pending == cancellables.Keys;
      cancellables := map[];
    }

    /** `handle_get_manifest`: the request runs with its sender's token; the
        reply is the core's. */
    method HandleGetManifest(sender: string, hostName: string, mode: string, fs: FileSystem, parse: JsonParser)
      returns (token: Token, reply: Result<seq<byte>, DbusError>)
      requires Valid()
      modifies this
      ensures Valid()
      ensures sender in cancellables && cancellables[sender] == token && tokens.IsLive(token)
      ensures sender in old(cancellables) ==>
                token == old(cancellables[sender]) && cancellables == old(cancellables) && tokens == old(tokens)
      ensures sender !in old(cancellables) ==>
                && token == old(tokens.issued)
                && cancellables == old(cancellables)[sender := token]
                && tokens == old(tokens).Create()
      ensures old(tokens.fired) <= tokens.fired
      ensures var r := Resolve(hostName, impl.SearchPathsFor(ModeFromString(mode)), fs, parse);
              reply == if r.Success? then Success(r.value.contents) else Failure(r.error)
    {
      token := EnsureCancellable(sender);
      reply := impl.HandleGetManifest(hostName, mode, fs, parse);
    }

    /** `handle_start`: the request runs with its sender's token; the host is
        started, awaited and unregistered by the core. */
    method HandleStart(sender: string, hostName: string, extensionOrOrigin: string, mode: string,
                       fs: FileSystem, parse: JsonParser,
                       spawnSucceeds: bool, draws: seq<uint32>, wait: WaitOutcome)
      returns (token: Token, effects: seq<Effect>)
      requires Valid()
      requires HasFreeDraw(impl.running, draws)
      modifies this, impl
      ensures Valid()
      ensures sender in cancellables && cancellables[sender] == token && tokens.IsLive(token)
      ensures sender in old(cancellables) ==>
                token == old(cancellables[sender]) && cancellables == old(cancellables) && tokens == old(tokens)
      ensures sender !in old(cancellables) ==>
                && token == old(tokens.issued)
                && cancellables == old(cancellables)[sender := token]
                && tokens == old(tokens).Create()
      ensures old(tokens.fired) <= tokens.fired
      ensures impl.running == old(impl.running)
      ensures impl.chromiumSearchPaths == old(impl.chromiumSearchPaths) && impl.mozillaSearchPaths == old(impl.mozillaSearchPaths)
      ensures |effects| > 0 && (effects[0].Spawn? || effects[0].ReplyError?)
    {
      token := EnsureCancellable(sender);
      effects := impl.HandleStart(hostName, extensionOrOrigin, mode, fs, parse, spawnSucceeds, draws, wait);
    }

    /** `handle_close`: the request runs with its sender's token; the core
        cancels the handle's host, if any, and replies success. */
    method HandleClose(sender: string, handle: string) returns (token: Token, reply: CloseReply)
      requires Valid()
      modifies this, impl
      ensures Valid()
      ensures sender in cancellables && cancellables[sender] == token && tokens.IsLive(token)
      ensures sender in old(cancellables) ==>
                token == old(cancellables[sender]) && cancellables == old(cancellables) && tokens == old(tokens)
      ensures sender !in old(cancellables) ==>
                && token == old(tokens.issued)
                && cancellables == old(cancellables)[sender := token]
                && tokens == old(tokens).Create()
      ensures old(tokens.fired) <= tokens.fired
      ensures impl.running == old(impl.running)
      ensures impl.chromiumSearchPaths == old(impl.chromiumSearchPaths) && impl.mozillaSearchPaths == old(impl.mozillaSearchPaths)
      ensures handle in impl.running ==> impl.tokens == old(impl.tokens).Cancel(impl.running[handle])
      ensures handle !in impl.running ==> impl.tokens == old(impl.tokens)
      ensures reply == CloseCompleted
    {
      token := EnsureCancellable(sender);
      reply := impl.HandleClose(handle);
    }
  }

  /** Requests from one client share one token: a Close followed by a
      GetManifest from the same sender run with the same token, so one
      disconnect cancels both. */
  method SameSenderSharesToken(service: XnmpService, sender: string, handle: string,
                               hostName: string, mode: string, fs: FileSystem, parse: JsonParser)
    returns (first: Token, second: Token)
    requires service.Valid()
    modifies service, service.impl
    ensures first == second
    ensures service.Valid() && sender in service.cancellables && service.cancellables[sender] == first
  {
    var closeReply, manifestReply;
    first, closeReply := service.HandleClose(sender, handle);
    second, manifestReply := service.HandleGetManifest(sender, hostName, mode, fs, parse);
  }
}
