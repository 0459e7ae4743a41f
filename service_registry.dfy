/** `cluster/management/ServiceRegistry`: workers register their address as
    an ephemeral sequential child of `/service_registry`; the coordinator keeps
    a cached list of the addresses of the registered workers and refreshes it
    on every change of the children. */
module ServiceRegistry {
  import opened Common
  import opened JavaCollections
  import opened Coordination

  const REGISTRY_ZNODE: string := "/service_registry"
  const WORKER_PREFIX: string := "n_"

  /** What the coordination service does while the addresses are refreshed.
      `ListingFails`: `getChildren` raises a `KeeperException` or the thread
      is interrupted. `Listed`: the listing succeeds; other sessions delete
      the children in `goneBeforeExists` before `exists` is asked about them,
      and those in `goneBeforeRead` between `exists` and `getData`. */
  datatype Refresh =
    | ListingFails
    | Listed(goneBeforeExists: set<string>, goneBeforeRead: set<string>)

  // ---------------------------------------------------------------------------
  // The refresh loop as a function
  // ---------------------------------------------------------------------------

  /** `exists` reports the child present: it is in the store and nobody
      deleted it before the question. */
  predicate Kept(c: string, payloads: map<string, string>, gone: set<string>)
  {
    c in payloads && c !in gone
  }

  /** The outcome of the loop of `updateAddresses` over the first `n` listed
      children: children `exists` reports absent are skipped; a child deleted
      between `exists` and `getData` makes `getData` raise `NoNode`, which
      ends the loop; every other child contributes its payload. */
  function CollectUpTo(children: seq<string>, payloads: map<string, string>, gone: set<string>, vanishing: set<string>, n: nat): (r: Result<seq<string>>)
    requires n <= |children|
    ensures r.Err? ==> r.error == NoNode
    ensures r.Ok? ==> |r.value| <= n
  {
    if n == 0 then Ok([])
    else
      var c := children[n - 1];
      match CollectUpTo(children, payloads, gone, vanishing, n - 1)
      case Err(e) => Err(e)
      case Ok(addresses) =>
        if !Kept(c, payloads, gone) then Ok(addresses)
        else if c in vanishing then Err(NoNode)
        else Ok(addresses + [payloads[c]])
  }

  /** The outcome of `updateAddresses` over the whole listing. */
  function Collect(children: seq<string>, payloads: map<string, string>, gone: set<string>, vanishing: set<string>): Result<seq<string>>
  {
    CollectUpTo(children, payloads, gone, vanishing, |children|)
  }

  /** The outcome of `updateAddresses` on a namespace node that is `present`
      or not: a failed listing, the `NoNode` of `getChildren` on a missing
      node, or the outcome of the loop. */
  function RefreshOutcome(refresh: Refresh, present: bool, children: seq<string>, payloads: map<string, string>): (r: Result<seq<string>>)
    ensures refresh.ListingFails? ==> r == Err(CoordinationFailure)
    ensures r.Ok? ==> |r.value| <= |children|
  {
    match refresh
    case ListingFails => Err(CoordinationFailure)
    case Listed(gone, vanishing) => if !present then Err(NoNode) else Collect(children, payloads, gone, vanishing)
  }

  // ---------------------------------------------------------------------------
  // A reference definition: filter, then read
  // ---------------------------------------------------------------------------

  /** The first `n` listed children that `exists` reports present, in listing order. */
  function SurvivorsUpTo(children: seq<string>, payloads: map<string, string>, gone: set<string>, n: nat): (r: seq<string>)
    requires n <= |children|
    ensures |r| <= n
    ensures forall c :: c in r ==> Kept(c, payloads, gone)
  {
    if n == 0 then []
    else
      var rest := SurvivorsUpTo(children, payloads, gone, n - 1);
      var c := children[n - 1];
      if Kept(c, payloads, gone) then rest + [c] else rest
  }

  /** Every child `exists` reports present is among the survivors. */
  lemma {:induction false} KeptSurvives(children: seq<string>, payloads: map<string, string>, gone: set<string>, n: nat, k: nat)
    requires k < n <= |children| && Kept(children[k], payloads, gone)
    ensures children[k] in SurvivorsUpTo(children, payloads, gone, n)
  {
    if k < n - 1 {
      KeptSurvives(children, payloads, gone, n - 1, k);
    }
  }

  /** The payloads of `names`, in order. */
  function Payloads(names: seq<string>, payloads: map<string, string>): (r: seq<string>)
    requires forall c :: c in names ==> c in payloads
    ensures |r| == |names|
    ensures forall i :: 0 <= i < |names| ==> r[i] == payloads[names[i]]
  {
    seq(|names|, i requires 0 <= i < |names| => payloads[names[i]])
  }

  /** Some of `names` vanishes before it is read. */
  predicate AnyVanishes(names: seq<string>, vanishing: set<string>)
  {
    exists c :: c in names && c in vanishing
  }

  /** The refresh fails exactly when a child that `exists` reported present
      vanished before it was read; otherwise it yields the payloads of the
      surviving children in listing order. */
  lemma {:induction false} CollectIsReadOfSurvivors(children: seq<string>, payloads: map<string, string>, gone: set<string>, vanishing: set<string>, n: nat)
    requires n <= |children|
    ensures var survivors := SurvivorsUpTo(children, payloads, gone, n);
      CollectUpTo(children, payloads, gone, vanishing, n) ==
        if AnyVanishes(survivors, vanishing) then Err(NoNode)
        else Ok(Payloads(survivors, payloads))
  {
    if n > 0 {
      CollectIsReadOfSurvivors(children, payloads, gone, vanishing, n - 1);
      var c := children[n - 1];
      var earlier := SurvivorsUpTo(children, payloads, gone, n - 1);
      if Kept(c, payloads, gone) {
        assert AnyVanishes(earlier + [c], vanishing) <==> AnyVanishes(earlier, vanishing) || c in vanishing by {
          if AnyVanishes(earlier + [c], vanishing) {
            var x :| x in earlier + [c] && x in vanishing;
            assert x in earlier || x == c;
          }
          if AnyVanishes(earlier, vanishing) {
            var x :| x in earlier && x in vanishing;
            assert x in earlier + [c];
          }
        }
        assert Payloads(earlier + [c], payloads) == Payloads(earlier, payloads) + [payloads[c]];
      }
    }
  }

  /** Without interference, the refresh yields the payload of every listed
      child, in listing order. */
  lemma {:induction false} QuietRefreshReadsAll(children: seq<string>, payloads: map<string, string>, n: nat)
    requires n <= |children|
    requires forall c :: c in children ==> c in payloads
    ensures CollectUpTo(children, payloads, {}, {}, n) == Ok(Payloads(children[..n], payloads))
  {
    if n > 0 {
      QuietRefreshReadsAll(children, payloads, n - 1);
      assert children[..n] == children[..n - 1] + [children[n - 1]];
      assert Payloads(children[..n], payloads) == Payloads(children[..n - 1], payloads) + [payloads[children[n - 1]]];
    }
  }

  /** A child removed between `exists` and `getData` fails the whole refresh,
      whatever the other children are. */
  lemma VanishedChildFailsRefresh(children: seq<string>, payloads: map<string, string>, gone: set<string>, vanishing: set<string>, k: nat)
    requires k < |children|
    requires Kept(children[k], payloads, gone) && children[k] in vanishing
    ensures Collect(children, payloads, gone, vanishing) == Err(NoNode)
  {
    CollectIsReadOfSurvivors(children, payloads, gone, vanishing, |children|);
    KeptSurvives(children, payloads, gone, |children|, k);
  }

  // ---------------------------------------------------------------------------
  // The registry object
  // ---------------------------------------------------------------------------

  class ServiceRegistry {
    /** The `/service_registry` namespace of the coordination service. */
    const store: Store
    /** `currentZnode`: the full path of this worker's child, once registered. */
    var currentZnode: Option<string>
    /** `allServiceAddresses`: `None` until the first successful refresh. */
    var allServiceAddresses: Option<seq<string>>
    /** How many children watches with this object as watcher have been armed. */
    var childWatches: nat

    /** The constructor with `createServiceRegistryZnode`: creates the
        persistent namespace only when `exists` reports it absent. */
    constructor (store: Store)
      requires store.path == REGISTRY_ZNODE
      modifies store`present
      ensures this.store == store && store.present
      ensures store.children == old(store.children) && store.payloads == old(store.payloads)
      ensures store.counter == old(store.counter)
      ensures currentZnode == None && allServiceAddresses == None && childWatches == 0
    {
      this.store := store;
      currentZnode := None;
      allServiceAddresses := None;
      childWatches := 0;
      new;
      if !store.present {
        var _ := store.CreateNamespace();
      }
    }

    /** `registryToCluster`: a registered worker does nothing; otherwise it
        creates an ephemeral sequential child `/service_registry/n_` holding
        `metadata` and records its path. A failure of `create` propagates
        and leaves the worker unregistered. */
    method RegistryToCluster(metadata: string) returns (thrown: Option<Error>)
      requires store.Valid() && store.path == REGISTRY_ZNODE
      modifies this`currentZnode, store
      ensures store.Valid()
      ensures old(currentZnode).Some? ==> thrown == None && unchanged(this, store)
      ensures old(currentZnode).None? ==>
        var name := old(store.NextName(WORKER_PREFIX));
        if !old(store.present) then thrown == Some(NoNode) && unchanged(this, store)
        else if name in old(store.payloads) then thrown == Some(NodeExists) && unchanged(this, store)
        else
          && thrown == None
          && currentZnode == Some(store.FullPath(name))
          && store.present
          && store.children == old(store.children) + [name]
          && store.payloads == old(store.payloads)[name := metadata]
          && store.counter == old(store.counter) + 1
    {
      if currentZnode.Some? {
        return None;
      }
      var r := store.CreateSequential(WORKER_PREFIX, metadata);
      if r.Err? {
        thrown := Some(r.error);
      } else {
        currentZnode := Some(r.value);
        thrown := None;
      }
    }

    /** `unregisterFromCluster`: deletes the worker's child when there is one
        and it still exists. The recorded path is kept, so registering again
        later does nothing. */
    method UnregisterFromCluster()
      requires store.Valid()
      modifies store`children, store`payloads, store`counter
      ensures store.Valid()
      ensures if currentZnode.Some? && old(store.ExistsPath(currentZnode.value)) then
          var name := store.ChildName(currentZnode.value);
          && store.children == Without(old(store.children), name)
          && store.payloads == old(store.payloads) - {name}
          && store.counter == old(store.counter) + 1
        else unchanged(store)
    {
      if currentZnode.Some? && store.ExistsPath(currentZnode.value) {
        var _ := store.Delete(currentZnode.value);
      }
    }

    /** `updateAddresses`: lists the children, arming a children watch,
        collects the payloads of those still present, and replaces the cache
        in one assignment at the end; any exception leaves the cache as it was. */
    method UpdateAddresses(refresh: Refresh) returns (thrown: Option<Error>)
      modifies this`allServiceAddresses, this`childWatches
      ensures childWatches == old(childWatches) + (if refresh.Listed? && store.present then 1 else 0)
      ensures match RefreshOutcome(refresh, store.present, store.children, store.payloads)
        case Err(e) => thrown == Some(e) && allServiceAddresses == old(allServiceAddresses)
        case Ok(addresses) => thrown == None && allServiceAddresses == Some(addresses)
    {
      if refresh.ListingFails? {
        return Some(CoordinationFailure);
      }
      if !store.present {
        return Some(NoNode);
      }
      var workerZnodes := store.children;
      childWatches := childWatches + 1;
      var addressList: seq<string> := [];
      var i := 0;
      while i < |workerZnodes|
        invariant 0 <= i <= |workerZnodes|
        invariant CollectUpTo(workerZnodes, store.payloads, refresh.goneBeforeExists, refresh.goneBeforeRead, i) == Ok(addressList)
      {
        var workerZnode := workerZnodes[i];
        var workerZnodeFullPath := store.FullPath(workerZnode);
        if !store.ExistsPath(workerZnodeFullPath) || workerZnode in refresh.goneBeforeExists {
          i := i + 1;
          continue;
        }
        if workerZnode in refresh.goneBeforeRead {
          VanishedChildFailsRefresh(workerZnodes, store.payloads, refresh.goneBeforeExists, refresh.goneBeforeRead, i);
          return Some(NoNode);
        }
        var address := store.payloads[workerZnode];
        addressList := addressList + [address];
        i := i + 1;
      }
      allServiceAddresses := Some(addressList);
      thrown := None;
    }

    /** `registerForUpdates`: a refresh whose exceptions are swallowed; a
        successful listing arms the children watch. */
    method RegisterForUpdates(refresh: Refresh)
      modifies this`allServiceAddresses, this`childWatches
      ensures var r := RefreshOutcome(refresh, store.present, store.children, store.payloads);
        allServiceAddresses == if r.Ok? then Some(r.value) else old(allServiceAddresses)
      ensures childWatches == old(childWatches) + (if refresh.Listed? && store.present then 1 else 0)
    {
      var _ := UpdateAddresses(refresh);
    }

    /** `getAllServiceAddresses`: the cached list; only when there is none
        yet does it refresh, and then an exception propagates. */
    method GetAllServiceAddresses(refresh: Refresh) returns (r: Result<seq<string>>)
      modifies this`allServiceAddresses, this`childWatches
      ensures old(allServiceAddresses).Some? ==> r == Ok(old(allServiceAddresses).value) && unchanged(this)
      ensures old(allServiceAddresses).None? ==>
        && r == RefreshOutcome(refresh, store.present, store.children, store.payloads)
        && allServiceAddresses == (if r.Ok? then Some(r.value) else None)
        && childWatches == old(childWatches) + (if refresh.Listed? && store.present then 1 else 0)
    {
      if allServiceAddresses.Some? {
        return Ok(allServiceAddresses.value);
      }
      var thrown := UpdateAddresses(refresh);
      if thrown.Some? {
        return Err(thrown.value);
      }
      r := Ok(allServiceAddresses.value);
    }

    /** `process`: every event, whatever its type, triggers a refresh whose
        exceptions are swallowed; the refresh arms the next children watch. */
    method Process(event: WatchedEvent, refresh: Refresh)
      modifies this`allServiceAddresses, this`childWatches
      ensures var r := RefreshOutcome(refresh, store.present, store.children, store.payloads);
        allServiceAddresses == if r.Ok? then Some(r.value) else old(allServiceAddresses)
      ensures childWatches == old(childWatches) + (if refresh.Listed? && store.present then 1 else 0)
    {
      var _ := UpdateAddresses(refresh);
    }
  }

  /** A worker registers with a fresh registry, and the first discovery
      afterwards, undisturbed by other sessions, finds exactly its address. */
  method RegisterThenDiscover(metadata: string) returns (addresses: Result<seq<string>>)
    ensures addresses == Ok([metadata])
  {
    var store := new Store(REGISTRY_ZNODE);
    var registry := new ServiceRegistry(store);
    var thrown := registry.RegistryToCluster(metadata);
    assert thrown == None && store.present && |store.children| == 1;
    QuietRefreshReadsAll(store.children, store.payloads, |store.children|);
    assert store.children[..1] == store.children;
    assert Payloads(store.children, store.payloads) == [metadata];
    addresses := registry.GetAllServiceAddresses(Listed({}, {}));
  }
}
