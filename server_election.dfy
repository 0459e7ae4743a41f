/** `server/LeaderElection`: the stand-alone participant. It volunteers under
    `/election`, runs one election over a single listing of the children, and
    then blocks until a connection event other than `SyncConnected` wakes it. */
module ServerElection {
  import opened Common
  import opened JavaCollections
  import opened Coordination
  import opened Election

  /** What `process` does with an event. */
  datatype Reaction =
    | ReportConnected  // connection established: a message and nothing else
    | WakeRunLoop      // any other connection state: `notifyAll` on the client
    | Ignored          // node events: the switch has no case for them

  /** The reaction of `process` to an event. */
  function React(event: WatchedEvent): (r: Reaction)
    ensures r == ReportConnected <==> event.kind == NoneType && event.state == SyncConnected
    ensures r == WakeRunLoop <==> event.kind == NoneType && event.state != SyncConnected
    ensures r == Ignored <==> event.kind != NoneType
  {
    if event.kind != NoneType then Ignored
    else if event.state == SyncConnected then ReportConnected
    else WakeRunLoop
  }

  /** No event about a node, not even the deletion of the watched
      predecessor, makes this participant run the election again. */
  lemma NodeEventsIgnored(event: WatchedEvent)
    requires event.kind != NoneType
    ensures React(event) == Ignored
  {
  }

  /** The loop of `reElectLeader` for a participant named `me` over the one
      listing `sorted`: in every pass it compares the smallest child with
      `me`, searches for its own position again and asks `exists` about the
      child before it. `rounds[i]` is what the service answers in pass `i`;
      only `rounds[0].children` is ever listed. */
  method SpinPasses(rounds: seq<Round>, me: string) returns (outcome: Outcome, asked: seq<string>)
    ensures outcome == ServerRun(rounds, me)
    ensures asked == ServerProbes(rounds, me)
  {
    if |rounds| == 0 {
      return Unfinished, [];
    }
    if rounds[0].Lost? {
      return Failed(CoordinationFailure), [];
    }
    var children := Sort(rounds[0].children);
    ghost var first := Decide(children, me);
    var i := 0;
    asked := [];
    while true
      invariant 0 <= i <= |rounds|
      invariant i > 0 ==> first.Follower?
      invariant first.Follower? ==>
        && Spin(rounds, first.predecessor, 0) == Spin(rounds, first.predecessor, i)
        && SpinProbes(rounds, first.predecessor, 0) == asked + SpinProbes(rounds, first.predecessor, i)
      invariant i == 0 ==> asked == []
      decreases |rounds| - i
    {
      if i == |rounds| {
        return Unfinished, asked;
      }
      var decision := DecidePass(children, me);
      if decision == Leader {
        return Elected, asked;
      } else if decision == OutOfRange {
        return Failed(IndexOutOfBounds), asked;
      }
      var predecessor := decision.predecessor;
      var round := rounds[i];
      if round.Lost? {
        return Failed(CoordinationFailure), asked;
      }
      AppendAssociative(asked, [predecessor], if predecessor in round.alive then [] else SpinProbes(rounds, predecessor, i + 1));
      asked := asked + [predecessor];
      if predecessor in round.alive {
        return Watching(predecessor), asked;
      }
      i := i + 1;
    }
  }

  class LeaderElection {
    /** The `/election` namespace of the coordination service. */
    const store: Store
    /** `currentZnodeName`; `None` until the participant volunteers. */
    var currentZnodeName: Option<string>
    /** Every name `exists` was asked about with this object as watcher, in order. */
    var watches: seq<string>
    /** How often `notifyAll` released the thread waiting in `run`. */
    var wakeups: nat

    constructor (store: Store)
      requires store.path == ELECTION_NAMESPACE
      ensures this.store == store
      ensures currentZnodeName == None && watches == [] && wakeups == 0
    {
      this.store := store;
      currentZnodeName := None;
      watches := [];
      wakeups := 0;
    }

    /** `volunterForLeadership`: creates an ephemeral sequential child
        `/election/c_` and records its name without the namespace. A failure
        of `create` propagates and leaves the recorded name as it was. */
    method VolunteerForLeadership() returns (thrown: Option<Error>)
      requires store.Valid() && store.path == ELECTION_NAMESPACE
      modifies this`currentZnodeName, store
      ensures store.Valid()
      ensures var name := old(store.NextName(CANDIDATE_PREFIX));
        if !old(store.present) then thrown == Some(NoNode) && unchanged(this, store)
        else if name in old(store.payloads) then thrown == Some(NodeExists) && unchanged(this, store)
        else
          && thrown == None
          && currentZnodeName == Some(name)
          && store.present
          && store.children == old(store.children) + [name]
          && store.payloads == old(store.payloads)[name := ""]
          && store.counter == old(store.counter) + 1
    {
      ghost var counter := store.counter;
      var r := store.CreateSequential(CANDIDATE_PREFIX, "");
      if r.Err? {
        thrown := Some(r.error);
      } else {
        NameFromCreatedPath(counter);
        currentZnodeName := Some(NameFromPath(r.value));
        thrown := None;
      }
    }

    /** `reElectLeader`: lists and sorts the children once, then asks
        `exists` about its predecessor until the answer is yes; every call
        arms a watch with this object as watcher. Exceptions propagate. */
    method ReElectLeader(rounds: seq<Round>) returns (outcome: Outcome)
      modifies this`watches
      ensures outcome == (if currentZnodeName.Some? then ServerRun(rounds, currentZnodeName.value) else Unnamed(rounds))
      ensures watches == old(watches) + (if currentZnodeName.Some? then ServerProbes(rounds, currentZnodeName.value) else [])
    {
      if currentZnodeName.None? {
        outcome := UnnamedPass(rounds);
        return;
      }
      var asked;
      outcome, asked := SpinPasses(rounds, currentZnodeName.value);
      watches := watches + asked;
    }

    /** `process`: reports a successful connection, wakes the thread blocked
        in `run` on any other connection state, and ignores node events. */
    method Process(event: WatchedEvent) returns (reaction: Reaction)
      modifies this`wakeups
      ensures reaction == React(event)
      ensures wakeups == old(wakeups) + (if reaction == WakeRunLoop then 1 else 0)
    {
      match event.kind {
        case NoneType =>
          if event.state == SyncConnected {
            reaction := ReportConnected;
          } else {
            wakeups := wakeups + 1;
            reaction := WakeRunLoop;
          }
        case _ =>
          reaction := Ignored;
      }
    }
  }
}
