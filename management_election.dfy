/** `cluster/management/LeaderElection`: a participant that volunteers under
    `/election`, re-runs the election whenever the node it watches is
    deleted, and tells its owner the result through a callback. */
module ManagementElection {
  import opened Common
  import opened JavaStrings
  import opened JavaCollections
  import opened Coordination
  import opened Election

  /** The two methods of `OnElectionCallback`. What they do is the owner's
      business; the model records the order they are called in. */
  datatype Callback = OnElectedToBeLeader | OnWorker

  /** The callbacks a call of `reElectLeader` makes, by how it ends. */
  function CallbacksFor(outcome: Outcome): (r: seq<Callback>)
    ensures r == [OnElectedToBeLeader] <==> outcome == Elected
    ensures r == [OnWorker] <==> outcome.Watching?
    ensures r == [] <==> outcome.Failed? || outcome == Unfinished
  {
    match outcome
    case Elected => [OnElectedToBeLeader]
    case Watching(_) => [OnWorker]
    case _ => []
  }

  /** The outcome of one call of `reElectLeader`, named or not. */
  function Attempt(rounds: seq<Round>, name: Option<string>): (r: Outcome)
  {
    if name.Some? then Run(rounds, name.value, 0) else Unnamed(rounds)
  }

  /** The names one call of `reElectLeader` asks `exists` about. */
  function AttemptProbes(rounds: seq<Round>, name: Option<string>): (r: seq<string>)
  {
    if name.Some? then Probes(rounds, name.value, 0) else []
  }

  /** Whether an exception leaves `process`: only `InterruptedException` and
      `KeeperException` are caught there. */
  function Escaping(outcome: Outcome): (r: Option<Error>)
    ensures r.Some? <==> outcome.Failed? && outcome.error != CoordinationFailure
    ensures r.Some? ==> r.value == outcome.error
  {
    if outcome.Failed? && outcome.error != CoordinationFailure then Some(outcome.error) else None
  }

  /** The loop of `reElectLeader` for a participant named `me`: lists and
      sorts the children in every pass; leads when the smallest child is `me`,
      otherwise asks `exists` about the child just before it, and lists again
      when that child is already gone. `rounds[i]` is what the service answers
      in pass `i`; `asked` is every name `exists` was asked about. */
  method ElectionPasses(rounds: seq<Round>, me: string) returns (outcome: Outcome, asked: seq<string>)
    ensures outcome == Run(rounds, me, 0)
    ensures asked == Probes(rounds, me, 0)
  {
    var i := 0;
    asked := [];
    while true
      invariant 0 <= i <= |rounds|
      invariant Run(rounds, me, 0) == Run(rounds, me, i)
      invariant Probes(rounds, me, 0) == asked + Probes(rounds, me, i)
      decreases |rounds| - i
    {
      if i == |rounds| {
        return Unfinished, asked;
      }
      var round := rounds[i];
      if round.Lost? {
        return Failed(CoordinationFailure), asked;
      }
      var children := Sort(round.children);
      var decision := DecidePass(children, me);
      if decision == Leader {
        return Elected, asked;
      } else if decision == OutOfRange {
        return Failed(IndexOutOfBounds), asked;
      }
      var predecessor := decision.predecessor;
      AppendAssociative(asked, [predecessor], if predecessor in round.alive then [] else Probes(rounds, me, i + 1));
      asked := asked + [predecessor];
      if predecessor in round.alive {
        return Watching(predecessor), asked;
      }
      RetryStep(rounds, me, i);
      ProbeStep(rounds, me, i);
      i := i + 1;
    }
  }

  class LeaderElection {
    /** The `/election` namespace of the coordination service. */
    const store: Store
    /** `currentZnodeName`; `None` until the participant volunteers. */
    var currentZnodeName: Option<string>
    /** Every name `exists` was asked about with this object as watcher, in order. */
    var watches: seq<string>
    /** Every call made on the `OnElectionCallback`, in order. */
    var callbacks: seq<Callback>

    constructor (store: Store)
      requires store.path == ELECTION_NAMESPACE
      ensures this.store == store
      ensures currentZnodeName == None && watches == [] && callbacks == []
    {
      this.store := store;
      currentZnodeName := None;
      watches := [];
      callbacks := [];
    }

    /** `volunterForLeadership`: creates an ephemeral sequential child
        `/election/c_` and records its name without the namespace. A failure
        of `create` propagates and leaves the recorded name as it was. */
    method VolunteerForLeadership() returns (thrown: Option<Error>)
      requires store.Valid() && store.path == ELECTION_NAMESPACE
      modifies this`currentZnodeName, store
      ensures store.Valid()
      ensures var name := old(store.NextName(CANDIDATE_PREFIX));
        if !old(store.present) then thrown == Some(NoNode) && unchanged(this, store)
        else if name in old(store.payloads) then thrown == Some(NodeExists) && unchanged(this, store)
        else
          && thrown == None
          && currentZnodeName == Some(name)
          && store.present
          && store.children == old(store.children) + [name]
          && store.payloads == old(store.payloads)[name := ""]
          && store.counter == old(store.counter) + 1
    {
      ghost var counter := store.counter;
      var r := store.CreateSequential(CANDIDATE_PREFIX, "");
      if r.Err? {
        thrown := Some(r.error);
      } else {
        NameFromCreatedPath(counter);
        currentZnodeName := Some(NameFromPath(r.value));
        thrown := None;
      }
    }

    /** `reElectLeader`: the passes of `ElectionPasses`, each `exists` call
        arming a watch with this object as watcher, and the callback that
        reports how the election ended. */
    method ReElectLeader(rounds: seq<Round>) returns (outcome: Outcome)
      modifies this`watches, this`callbacks
      ensures outcome == Attempt(rounds, currentZnodeName)
      ensures watches == old(watches) + AttemptProbes(rounds, currentZnodeName)
      ensures callbacks == old(callbacks) + CallbacksFor(outcome)
    {
      if currentZnodeName.None? {
        outcome := UnnamedPass(rounds);
        return;
      }
      var asked;
      outcome, asked := ElectionPasses(rounds, currentZnodeName.value);
      watches := watches + asked;
      callbacks := callbacks + CallbacksFor(outcome);
    }

    /** `process`: a deletion of the watched node starts a new election;
        every other event is ignored. A coordination failure during the
        election is swallowed, an index or null error escapes. */
    method Process(event: WatchedEvent, rounds: seq<Round>) returns (escaped: Option<Error>)
      modifies this`watches, this`callbacks
      ensures event.kind != NodeDeleted ==> escaped == None && unchanged(this)
      ensures event.kind == NodeDeleted ==>
        var outcome := Attempt(rounds, currentZnodeName);
        && escaped == Escaping(outcome)
        && watches == old(watches) + AttemptProbes(rounds, currentZnodeName)
        && callbacks == old(callbacks) + CallbacksFor(outcome)
    {
      escaped := None;
      if event.kind == NodeDeleted {
        var outcome := ReElectLeader(rounds);
        escaped := Escaping(outcome);
      }
    }
  }
}
