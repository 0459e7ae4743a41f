/** An in-memory stand-in for the coordination service (ZooKeeper) as the
    cluster code uses it: one namespace node with its children, sequential
    child names, and the events delivered to watchers. The client, session
    and network are not modelled. */
module Coordination {
  import opened Common
  import opened JavaStrings
  import opened JavaCollections

  /** Width of the zero-padded counter the service appends to a sequential
      node's name (`%010d`). */
  const SEQUENCE_WIDTH: nat := 10

  /** The service's counter is a signed 32-bit `int`: it counts up to
      2^31 - 1 and then wraps to negative numbers. */
  const COUNTER_LIMIT: nat := 0x8000_0000

  /** Every counter below the wrap-around fits the ten padded digits. */
  lemma CounterFitsWidth()
    ensures COUNTER_LIMIT <= Pow10(SEQUENCE_WIDTH)
  {
    assert Pow10(SEQUENCE_WIDTH) == 10_000_000_000;
  }

  function Pow10(k: nat): nat
  {
    if k == 0 then 1 else 10 * Pow10(k - 1)
  }

  /** The low `width` decimal digits of `n`, zero-padded on the left. */
  function Pad(n: nat, width: nat): (s: string)
    ensures |s| == width && AllDigits(s)
    decreases width
  {
    if width == 0 then "" else Pad(n / 10, width - 1) + [DigitChar(n % 10)]
  }

  /** Padded counters sort as the numbers do: a later sequential node has a
      larger name, so string order is creation order. */
  lemma {:induction false} PadOrdered(n: nat, m: nat, width: nat)
    requires n < m < Pow10(width)
    ensures Less(Pad(n, width), Pad(m, width))
    decreases width
  {
    var a, b := Pad(n / 10, width - 1), Pad(m / 10, width - 1);
    LessAppend(a, b, DigitChar(n % 10), DigitChar(m % 10));
    if n / 10 < m / 10 {
      PadOrdered(n / 10, m / 10, width - 1);
    }
  }

  /** Sequential names made from one prefix order as their counters. */
  lemma SequentialNamesOrdered(prefix: string, n: nat, m: nat)
    requires n < m < Pow10(SEQUENCE_WIDTH)
    ensures Less(prefix + Pad(n, SEQUENCE_WIDTH), prefix + Pad(m, SEQUENCE_WIDTH))
  {
    PadOrdered(n, m, SEQUENCE_WIDTH);
    LessCommonPrefix(prefix, Pad(n, SEQUENCE_WIDTH), Pad(m, SEQUENCE_WIDTH));
  }

  /** One namespace node of the coordination service (such as `/election`)
      and the children under it. The service promises no order for a
      listing; the model lists children in creation order, which no caller
      depends on because every caller sorts the listing first. The counter
      stands for the parent's child version (`cversion`), which the service
      advances on every creation and deletion of a child and appends to the
      name of a sequential child; the service's counter is a signed 32-bit
      number, which the model does not bound. */
  class Store {
    const path: string
    var present: bool
    var children: seq<string>
    var payloads: map<string, string>
    var counter: nat

    ghost predicate Valid()
      reads this
    {
      Distinct(children) && (forall n :: n in children <==> n in payloads)
    }

    constructor (path: string)
      ensures this.path == path && !present && children == [] && payloads == map[] && counter == 0
      ensures Valid()
    {
      this.path := path;
      present := false;
      children := [];
      payloads := map[];
      counter := 0;
    }

    /** The full path of a child of this namespace. */
    function FullPath(name: string): (p: string)
      ensures IsChildPath(p) && ChildName(p) == name
    {
      path + "/" + name
    }

    predicate IsChildPath(p: string)
    {
      |p| > |path| && p[..|path| + 1] == path + "/"
    }

    function ChildName(p: string): string
      requires IsChildPath(p)
    {
      p[|path| + 1..]
    }

    /** `exists(p) != null` for a path under this namespace. */
    predicate ExistsPath(p: string)
      reads this
    {
      IsChildPath(p) && ChildName(p) in payloads
    }

    /** The name the next sequential child made with this prefix gets. */
    function NextName(prefix: string): string
      reads this
    {
      prefix + Pad(counter, SEQUENCE_WIDTH)
    }

    /** Creates the namespace node itself, persistent and empty; the service
        refuses when it already exists. */
    method CreateNamespace() returns (thrown: Option<Error>)
      modifies this`present
      ensures present
      ensures thrown == (if old(present) then Some(NodeExists) else None)
    {
      if present {
        thrown := Some(NodeExists);
      } else {
        present := true;
        thrown := None;
      }
    }

    /** `create(path + "/" + prefix, payload, EPHEMERAL_SEQUENTIAL)`: appends a
        child named by the prefix and the padded counter and returns its full
        path. */
    method CreateSequential(prefix: string, payload: string) returns (r: Result<string>)
      requires Valid()
      modifies this
      ensures Valid()
      ensures var name := old(NextName(prefix));
        if !old(present) then r == Err(NoNode) && unchanged(this)
        else if name in old(payloads) then r == Err(NodeExists) && unchanged(this)
        else
          && r == Ok(FullPath(name))
          && present
          && children == old(children) + [name]
          && payloads == old(payloads)[name := payload]
          && counter == old(counter) + 1
    {
      var name := NextName(prefix);
      if !present {
        r := Err(NoNode);
      } else if name in payloads {
        r := Err(NodeExists);
      } else {
        children := children + [name];
        payloads := payloads[name := payload];
        counter := counter + 1;
        r := Ok(FullPath(name));
      }
    }

    /** `delete(p, -1)`: removes the child, or raises `NoNode` when it is
        absent. Also stands for the service removing an ephemeral child when
        the session that made it ends. The deletion advances the counter. */
    method Delete(p: string) returns (thrown: Option<Error>)
      requires Valid()
      modifies this`children, this`payloads, this`counter
      ensures Valid()
      ensures if old(ExistsPath(p)) then
          thrown == None &&
          children == Without(old(children), ChildName(p)) &&
          payloads == old(payloads) - {ChildName(p)} &&
          counter == old(counter) + 1
        else
          thrown == Some(NoNode) && unchanged(this)
    {
      if ExistsPath(p) {
        var name := ChildName(p);
        children := Without(children, name);
        payloads := payloads - {name};
        counter := counter + 1;
        thrown := None;
      } else {
        thrown := Some(NoNode);
      }
    }
  }

  // ---------------------------------------------------------------------------
  // Events delivered to a watcher
  // ---------------------------------------------------------------------------

  /** `Watcher.Event.EventType`; `NoneType` is the service's `None`, the type
      of connection-state events. */
  datatype EventType = NoneType | NodeCreated | NodeDeleted | NodeDataChanged | NodeChildrenChanged

  /** `Watcher.Event.KeeperState` */
  datatype KeeperState =
    | SyncConnected | Disconnected | Expired | AuthFailed | ConnectedReadOnly | SaslAuthenticated | Closed

  datatype WatchedEvent = WatchedEvent(kind: EventType, state: KeeperState)
}
