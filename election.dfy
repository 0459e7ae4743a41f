/** The leader-election protocol shared by both election classes: how a
    participant ranks itself among the children of `/election`, the two
    re-election loops as functions of what the coordination service answers,
    and what the ranking guarantees for a whole set of participants. */
module Election {
  import opened Common
  import opened JavaStrings
  import opened JavaCollections
  import opened Coordination

  const ELECTION_NAMESPACE: string := "/election"
  const CANDIDATE_PREFIX: string := "c_"

  // ---------------------------------------------------------------------------
  // The participant's name
  // ---------------------------------------------------------------------------

  /** `fullPath.replace("/election/", "")`: the bare child name recorded as
      `currentZnodeName`. */
  function NameFromPath(fullPath: string): string
  {
    ReplaceAll(fullPath, ELECTION_NAMESPACE + "/", "")
  }

  /** The name recorded after volunteering is the sequential child the
      service created, with the namespace stripped. */
  lemma NameFromCreatedPath(counter: nat)
    ensures var name := CANDIDATE_PREFIX + Pad(counter, SEQUENCE_WIDTH);
      NameFromPath(ELECTION_NAMESPACE + "/" + name) == name
  {
    var name := CANDIDATE_PREFIX + Pad(counter, SEQUENCE_WIDTH);
    assert '/' !in name by {
      assert forall i :: 0 <= i < |name| ==> name[i] == '/' ==> i >= 2 && IsDigit(name[i]);
    }
    assert ELECTION_NAMESPACE + "/" + name == (ELECTION_NAMESPACE + "/") + name;
    StripPrefix(ELECTION_NAMESPACE + "/", name);
  }

  // ---------------------------------------------------------------------------
  // One decision
  // ---------------------------------------------------------------------------

  datatype Decision = Leader | Follower(predecessor: string) | OutOfRange

  /** `me` is a participant and no participant sorts before it. */
  predicate IsLeast(names: seq<string>, me: string)
  {
    me in names && forall x :: x in names ==> !Less(x, me)
  }

  /** `p` is a participant smaller than `me` with no participant in between. */
  predicate IsPredecessor(names: seq<string>, p: string, me: string)
  {
    p in names && Less(p, me) && forall x :: x in names ==> !(Less(p, x) && Less(x, me))
  }

  /** One pass of the decision in `reElectLeader` over the sorted children:
      leader when `children.get(0)` is the own name, otherwise the child at
      `binarySearch(children, me) - 1`; `OutOfRange` stands for the
      `IndexOutOfBoundsException` of `get` on an empty list or on a negative
      index, which happens exactly when the own name is not among the children. */
  function Decide(sorted: seq<string>, me: string): (d: Decision)
    requires Sorted(sorted)
    ensures d == Leader <==> |sorted| > 0 && sorted[0] == me
    ensures d == OutOfRange <==> me !in sorted
    ensures d.Follower? && Distinct(sorted) ==> IsPredecessor(sorted, d.predecessor, me)
  {
    if |sorted| == 0 then OutOfRange
    else if sorted[0] == me then Leader
    else
      var k := BinarySearch(sorted, me) - 1;
      if k < 0 then OutOfRange
      else
        PredecessorAt(sorted, k);
        Follower(sorted[k])
  }

  /** In a sorted list without repeats each element is the predecessor of the next. */
  lemma PredecessorAt(sorted: seq<string>, k: int)
    requires Sorted(sorted) && 0 <= k < |sorted| - 1
    ensures Distinct(sorted) ==> IsPredecessor(sorted, sorted[k], sorted[k + 1])
  {
    if Distinct(sorted) {
      SortedDistinctIncreasing(sorted, k, k + 1);
      forall x | x in sorted ensures !(Less(sorted[k], x) && Less(x, sorted[k + 1])) {
        var m :| 0 <= m < |sorted| && sorted[m] == x;
        if m <= k {
          if m < k {
            assert LessEq(x, sorted[k]);
            LessIrreflexive(x);
            if Less(sorted[k], x) {
              LessAsymmetric(sorted[k], x);
            }
          } else {
            LessIrreflexive(x);
          }
        } else {
          assert LessEq(sorted[k + 1], x);
          LessIrreflexive(x);
          if Less(x, sorted[k + 1]) {
            LessAsymmetric(x, sorted[k + 1]);
          }
        }
      }
    }
  }

  /** Two predecessors of the same name are the same participant. */
  lemma PredecessorUnique(names: seq<string>, p: string, q: string, me: string)
    requires IsPredecessor(names, p, me) && IsPredecessor(names, q, me)
    ensures p == q
  {
    LessTotal(p, q);
  }

  /** The leader test on the children as listed: a participant leads exactly
      when no other participant sorts before it. */
  lemma DecideLeader(names: seq<string>, me: string)
    ensures Decide(Sort(names), me) == Leader <==> IsLeast(names, me)
  {
    var s := Sort(names);
    SortSameElements(names, me);
    if Decide(s, me) == Leader {
      forall x | x in names ensures !Less(x, me) {
        SortSameElements(names, x);
        SortedHeadIsLeast(s, x);
        LessIrreflexive(x);
        if Less(x, me) && x != me {
          LessAsymmetric(x, me);
        }
      }
    }
    if IsLeast(names, me) {
      SortSameElements(names, s[0]);
      SortedHeadIsLeast(s, me);
    }
  }

  /** The follower test on the children as listed: a participant watches
      exactly its immediate predecessor among the participants. */
  lemma DecideFollower(names: seq<string>, me: string, p: string)
    requires Distinct(names)
    ensures Decide(Sort(names), me) == Follower(p) <==> me in names && IsPredecessor(names, p, me)
  {
    var s := Sort(names);
    SortKeepsDistinct(names);
    SortSameElements(names, me);
    SortSameElements(names, p);
    if Decide(s, me) == Follower(p) {
      forall x | x in names ensures !(Less(p, x) && Less(x, me)) {
        SortSameElements(names, x);
      }
    }
    if me in names && IsPredecessor(names, p, me) {
      SortedHeadIsLeast(s, p);
      if s[0] == me {
        LessNotGreaterEq(p, me);
      }
      var q := Decide(s, me).predecessor;
      SortSameElements(names, q);
      assert IsPredecessor(names, q, me) by {
        forall x | x in names ensures !(Less(q, x) && Less(x, me)) {
          SortSameElements(names, x);
        }
      }
      PredecessorUnique(names, p, q, me);
    }
  }

  // ---------------------------------------------------------------------------
  // What the ranking guarantees for a whole set of participants
  // ---------------------------------------------------------------------------

  /** Among distinct participants exactly one passes the leader test: the
      smallest name. */
  lemma ExactlyOneLeader(names: seq<string>)
    requires Distinct(names) && |names| > 0
    ensures exists leader :: leader in names && Decide(Sort(names), leader) == Leader
    ensures forall p, q :: Decide(Sort(names), p) == Leader && Decide(Sort(names), q) == Leader ==> p == q
    ensures forall p :: Decide(Sort(names), p) == Leader ==> p in names
  {
    var s := Sort(names);
    SortSameElements(names, s[0]);
    assert Decide(s, s[0]) == Leader;
    forall p | Decide(s, p) == Leader ensures p in names {
      SortSameElements(names, p);
    }
  }

  /** Every participant other than the leader follows a strictly smaller
      participant, and no participant lies between the two. */
  lemma FollowerWatchesSmaller(names: seq<string>, me: string)
    requires Distinct(names) && me in names && !IsLeast(names, me)
    ensures Decide(Sort(names), me).Follower?
    ensures var p := Decide(Sort(names), me).predecessor;
      IsPredecessor(names, p, me)
  {
    DecideLeader(names, me);
    SortSameElements(names, me);
    DecideFollower(names, me, Decide(Sort(names), me).predecessor);
  }

  /** No two followers watch the same participant: the watches form a chain. */
  lemma FollowersWatchDistinct(names: seq<string>, p: string, q: string, x: string)
    requires Distinct(names)
    requires Decide(Sort(names), p) == Follower(x) && Decide(Sort(names), q) == Follower(x)
    ensures p == q
  {
    DecideFollower(names, p, x);
    DecideFollower(names, q, x);
    LessTotal(p, q);
  }

  /** When a participant that is neither a follower nor its predecessor
      leaves, the follower keeps watching the same predecessor: one deletion
      concerns one watcher only. */
  lemma DeletionKeepsOtherWatches(names: seq<string>, gone: string, me: string, p: string)
    requires Distinct(names) && gone != me && gone != p
    requires Decide(Sort(names), me) == Follower(p)
    ensures Decide(Sort(Without(names, gone)), me) == Follower(p)
  {
    DecideFollower(names, me, p);
    DecideFollower(Without(names, gone), me, p);
  }

  /** When the leader leaves, the participant that watched it becomes the
      leader. */
  lemma LeaderDeletionPromotesSuccessor(names: seq<string>, leader: string, next: string)
    requires Distinct(names)
    requires Decide(Sort(names), leader) == Leader && Decide(Sort(names), next) == Follower(leader)
    ensures Decide(Sort(Without(names, leader)), next) == Leader
  {
    DecideLeader(names, leader);
    DecideFollower(names, next, leader);
    var rest := Without(names, leader);
    forall x | x in rest ensures !Less(x, next) {
      LessTotal(x, leader);
    }
    DecideLeader(rest, next);
  }

  /** The ranking of three participants `a`, `b`, `c`: `a` leads, `b`
      watches `a`, `c` watches `b`; once `a` leaves, `b` leads and `c` still
      watches `b`. */
  predicate RankedChain(a: string, b: string, c: string)
  {
    && Decide(Sort([a, b, c]), a) == Leader
    && Decide(Sort([a, b, c]), b) == Follower(a)
    && Decide(Sort([a, b, c]), c) == Follower(b)
    && Decide(Sort(Without([a, b, c], a)), b) == Leader
    && Decide(Sort(Without([a, b, c], a)), c) == Follower(b)
  }

  /** Three participants whose names sort in the order given: the first
      leads, the second watches the first, the third the second; once the
      first leaves, the second leads and the third still watches the second. */
  lemma ThreeRanked(a: string, b: string, c: string)
    requires Less(a, b) && Less(b, c)
    ensures RankedChain(a, b, c)
  {
    LessTransitive(a, b, c);
    LessIrreflexive(a);
    LessIrreflexive(b);
    LessIrreflexive(c);
    LessAsymmetric(a, b);
    LessAsymmetric(b, c);
    LessAsymmetric(a, c);
    var names := [a, b, c];
    assert Distinct(names);
    DecideLeader(names, a);
    DecideFollower(names, b, a);
    DecideFollower(names, c, b);
    LeaderDeletionPromotesSuccessor(names, a, b);
    DeletionKeepsOtherWatches(names, a, c, b);
  }

  /** The name a participant gets from the `n`-th sequential creation. */
  function Candidate(n: nat): string
  {
    CANDIDATE_PREFIX + Pad(n, SEQUENCE_WIDTH)
  }

  /** Names created later by the same participant sequence sort later. */
  lemma CandidatesOrdered(n: nat, m: nat, k: nat)
    requires n < m < k < COUNTER_LIMIT
    ensures Less(Candidate(n), Candidate(m)) && Less(Candidate(m), Candidate(k))
  {
    CounterFitsWidth();
    SequentialNamesOrdered(CANDIDATE_PREFIX, n, m);
    SequentialNamesOrdered(CANDIDATE_PREFIX, m, k);
  }

  /** Three participants volunteer in turn, so the service hands them
      increasing sequence numbers, and their names rank in the order they
      volunteered: the first leads, each later one watches the one before it,
      and when the leader goes the second takes over. */
  lemma ThreeParticipants(n: nat, m: nat, k: nat)
    requires n < m < k < COUNTER_LIMIT
    ensures RankedChain(Candidate(n), Candidate(m), Candidate(k))
  {
    CandidatesOrdered(n, m, k);
    ThreeRanked(Candidate(n), Candidate(m), Candidate(k));
  }

  // ---------------------------------------------------------------------------
  // The re-election loops, as functions of the service's answers
  // ---------------------------------------------------------------------------

  /** What the coordination service answers in one pass of a re-election
      loop: the children listed by `getChildren("/election")` and the names
      still present when `exists` is asked; or `Lost` when one of these calls
      raises `KeeperException` or `InterruptedException`. The service may
      change between rounds. */
  datatype Round = Round(children: seq<string>, alive: set<string>) | Lost

  /** How a call of `reElectLeader` ends. `Unfinished`: the answers ran out
      while the loop was still retrying, so the call has not returned. */
  datatype Outcome = Elected | Watching(predecessor: string) | Unfinished | Failed(error: Error)

  /** A round in which the participant follows, but its predecessor is gone
      by the time `exists` is asked. */
  predicate Retries(round: Round, me: string)
  {
    round.Round? &&
    var d := Decide(Sort(round.children), me);
    d.Follower? && d.predecessor !in round.alive
  }

  /** The predecessor a pass decides on, or "" when it decides nothing else. */
  function Watched(round: Round, me: string): string
  {
    if round.Round? && Decide(Sort(round.children), me).Follower? then
      Decide(Sort(round.children), me).predecessor
    else ""
  }

  /** The loop of `cluster/management/LeaderElection.reElectLeader` from pass
      `from` on: every pass lists and sorts the children anew. */
  function Run(rounds: seq<Round>, me: string, from: nat): (r: Outcome)
    requires from <= |rounds|
    ensures r.Failed? ==> r.error == CoordinationFailure || r.error == IndexOutOfBounds
    decreases |rounds| - from
  {
    if from == |rounds| then Unfinished
    else match rounds[from]
      case Lost => Failed(CoordinationFailure)
      case Round(children, alive) =>
        match Decide(Sort(children), me)
        case Leader => Elected
        case OutOfRange => Failed(IndexOutOfBounds)
        case Follower(p) => if p in alive then Watching(p) else Run(rounds, me, from + 1)
  }

  /** The names `exists` is asked about, in order, by `Run` from pass `from`
      on; each call arms a watch on that name. */
  function Probes(rounds: seq<Round>, me: string, from: nat): (r: seq<string>)
    requires from <= |rounds|
    decreases |rounds| - from
  {
    if from == |rounds| then []
    else match rounds[from]
      case Lost => []
      case Round(children, alive) =>
        match Decide(Sort(children), me)
        case Follower(p) => [p] + (if p in alive then [] else Probes(rounds, me, from + 1))
        case _ => []
  }

  /** The predecessors decided by passes `from` up to `k`. */
  function RetryProbes(rounds: seq<Round>, me: string, from: nat, k: nat): (r: seq<string>)
    requires from <= k <= |rounds|
    ensures |r| == k - from
    decreases k - from
  {
    if from == k then [] else [Watched(rounds[from], me)] + RetryProbes(rounds, me, from + 1, k)
  }

  /** Passes whose predecessor has vanished lead to fresh listings: after
      the passes `from` up to `k` the loop is where it would be had it
      started at `k`. */
  lemma {:induction false} RunAfterRetries(rounds: seq<Round>, me: string, from: nat, k: nat)
    requires from <= k <= |rounds| && forall j {:trigger Retries(rounds[j], me)} :: from <= j < k ==> Retries(rounds[j], me)
    ensures Run(rounds, me, from) == Run(rounds, me, k)
    decreases k - from
  {
    if from < k {
      RetryStep(rounds, me, from);
      RunAfterRetries(rounds, me, from + 1, k);
    }
  }

  /** A pass whose predecessor is gone hands over to the next pass. */
  lemma RetryStep(rounds: seq<Round>, me: string, j: nat)
    requires j < |rounds| && Retries(rounds[j], me)
    ensures Run(rounds, me, j) == Run(rounds, me, j + 1)
  {
  }

  /** Such a pass asks about its predecessor, then hands over to the next. */
  lemma ProbeStep(rounds: seq<Round>, me: string, j: nat)
    requires j < |rounds| && Retries(rounds[j], me)
    ensures Probes(rounds, me, j) == [Watched(rounds[j], me)] + Probes(rounds, me, j + 1)
  {
  }

  /** Meanwhile it has asked about each of their predecessors once. */
  lemma {:induction false} ProbesAfterRetries(rounds: seq<Round>, me: string, from: nat, k: nat)
    requires from <= k <= |rounds| && forall j {:trigger Retries(rounds[j], me)} :: from <= j < k ==> Retries(rounds[j], me)
    ensures Probes(rounds, me, from) == RetryProbes(rounds, me, from, k) + Probes(rounds, me, k)
    decreases k - from
  {
    if from < k {
      ProbeStep(rounds, me, from);
      ProbesAfterRetries(rounds, me, from + 1, k);
      AppendAssociative([Watched(rounds[from], me)], RetryProbes(rounds, me, from + 1, k), Probes(rounds, me, k));
    }
  }

  /** `Run` is still retrying when the answers run out exactly when every
      remaining pass found its predecessor gone. */
  lemma {:induction false} RunUnfinished(rounds: seq<Round>, me: string, from: nat)
    requires from <= |rounds|
    ensures Run(rounds, me, from) == Unfinished <==>
      forall j {:trigger Retries(rounds[j], me)} :: from <= j < |rounds| ==> Retries(rounds[j], me)
    decreases |rounds| - from
  {
    if from < |rounds| {
      RunUnfinished(rounds, me, from + 1);
      if Retries(rounds[from], me) {
        RetryStep(rounds, me, from);
      }
    }
  }

  /** Pass `k` elects the participant, every pass from `from` on before it
      having found its predecessor gone. */
  predicate ElectedAt(rounds: seq<Round>, me: string, from: nat, k: int)
  {
    from <= k < |rounds| && (forall j :: from <= j < k ==> Retries(rounds[j], me)) &&
    rounds[k].Round? && Decide(Sort(rounds[k].children), me) == Leader
  }

  /** `Run` ends as leader exactly in a pass whose smallest child is the own
      name, every earlier pass having found its predecessor gone. */
  lemma {:induction false} RunElected(rounds: seq<Round>, me: string, from: nat)
    requires from <= |rounds|
    ensures Run(rounds, me, from) == Elected <==> exists k :: ElectedAt(rounds, me, from, k)
    decreases |rounds| - from
  {
    if from < |rounds| && !ElectedAt(rounds, me, from, from) {
      if Retries(rounds[from], me) {
        RunElected(rounds, me, from + 1);
        if Run(rounds, me, from) == Elected {
          var k :| ElectedAt(rounds, me, from + 1, k);
          assert ElectedAt(rounds, me, from, k);
        }
        if exists k :: ElectedAt(rounds, me, from, k) {
          var k :| ElectedAt(rounds, me, from, k);
          assert ElectedAt(rounds, me, from + 1, k);
        }
      }
    }
  }

  /** When `Run` ends watching a name, the name was present when `exists`
      was asked, was the predecessor in that pass's listing, and sorts
      strictly before the own name when that listing has no repeats. */
  lemma {:induction false} RunWatching(rounds: seq<Round>, me: string, from: nat, p: string)
    requires from <= |rounds| && Run(rounds, me, from) == Watching(p)
    ensures exists k :: (from <= k < |rounds| && rounds[k].Round? && p in rounds[k].alive &&
      Decide(Sort(rounds[k].children), me) == Follower(p) &&
      (Distinct(rounds[k].children) ==> IsPredecessor(rounds[k].children, p, me)))
    decreases |rounds| - from
  {
    match rounds[from]
    case Round(children, alive) =>
      if Decide(Sort(children), me) == Follower(p) && p in alive {
        if Distinct(children) {
          DecideFollower(children, me, p);
        }
        assert rounds[from].Round?;
      } else {
        RunWatching(rounds, me, from + 1, p);
      }
  }

  /** Either loop when the participant never volunteered, so its name is
      `null`: the first listing fails, or `get(0)` fails on an empty list, or
      the binary search compares a child with `null`. No pass goes further. */
  function Unnamed(rounds: seq<Round>): (r: Outcome)
    ensures r.Failed? || r == Unfinished
    ensures r == Failed(IndexOutOfBounds) <==> |rounds| > 0 && rounds[0].Round? && |rounds[0].children| == 0
  {
    if |rounds| == 0 then Unfinished
    else match rounds[0]
      case Lost => Failed(CoordinationFailure)
      case Round(children, _) => if |children| == 0 then Failed(IndexOutOfBounds) else Failed(NullPointer)
  }

  /** The decision of one pass, step by step as both `reElectLeader` loops take it:
      `get(0)` of the sorted children, the comparison with the own name, and
      `get(binarySearch(children, me) - 1)`. */
  method DecidePass(children: seq<string>, me: string) returns (d: Decision)
    requires Sorted(children)
    ensures d == Decide(children, me)
  {
    if |children| == 0 {
      return OutOfRange;
    }
    var smallestChild := children[0];
    if smallestChild == me {
      return Leader;
    }
    var predecessorIndex := BinarySearch(children, me) - 1;
    if predecessorIndex < 0 {
      return OutOfRange;
    }
    return Follower(children[predecessorIndex]);
  }

  /** The first pass of both `reElectLeader` loops before the participant has a name:
      the children are listed and sorted, `get(0)` fails on an empty list, and
      otherwise the search for the missing name compares with `null`. */
  method UnnamedPass(rounds: seq<Round>) returns (outcome: Outcome)
    ensures outcome == Unnamed(rounds)
  {
    if |rounds| == 0 {
      return Unfinished;
    }
    var round := rounds[0];
    if round.Lost? {
      return Failed(CoordinationFailure);
    }
    var children := Sort(round.children);
    if |children| == 0 {
      return Failed(IndexOutOfBounds);
    }
    return Failed(NullPointer);
  }

  /** The loop of `server/LeaderElection.reElectLeader`: the children are
      listed and sorted once, in the first pass; later passes only ask
      `exists` again about the same predecessor. */
  function ServerRun(rounds: seq<Round>, me: string): (r: Outcome)
    ensures r.Failed? ==> r.error == CoordinationFailure || r.error == IndexOutOfBounds
    ensures r.Watching? ==> |rounds| > 0 && rounds[0].Round? && Decide(Sort(rounds[0].children), me) == Follower(r.predecessor)
  {
    if |rounds| == 0 then Unfinished
    else match rounds[0]
      case Lost => Failed(CoordinationFailure)
      case Round(children, _) =>
        match Decide(Sort(children), me)
        case Leader => Elected
        case OutOfRange => Failed(IndexOutOfBounds)
        case Follower(p) => Spin(rounds, p, 0)
  }

  /** Asks `exists(p)` once per pass, from pass `from` on, until the answer
      is yes. */
  function Spin(rounds: seq<Round>, p: string, from: nat): (r: Outcome)
    requires from <= |rounds|
    ensures r.Failed? ==> r.error == CoordinationFailure
    ensures r.Watching? ==> r.predecessor == p
    decreases |rounds| - from
  {
    if from == |rounds| then Unfinished
    else match rounds[from]
      case Lost => Failed(CoordinationFailure)
      case Round(_, alive) => if p in alive then Watching(p) else Spin(rounds, p, from + 1)
  }

  /** The names `exists` is asked about by `Spin`. */
  function SpinProbes(rounds: seq<Round>, p: string, from: nat): seq<string>
    requires from <= |rounds|
    decreases |rounds| - from
  {
    if from == |rounds| then []
    else match rounds[from]
      case Lost => []
      case Round(_, alive) => [p] + (if p in alive then [] else SpinProbes(rounds, p, from + 1))
  }

  /** The names `exists` is asked about by `ServerRun`. */
  function ServerProbes(rounds: seq<Round>, me: string): (r: seq<string>)
  {
    if |rounds| == 0 then []
    else match rounds[0]
      case Lost => []
      case Round(children, _) =>
        match Decide(Sort(children), me)
        case Follower(p) => SpinProbes(rounds, p, 0)
        case _ => []
  }

  /** Passes that are all answered and never see `p` present. */
  predicate AlwaysGone(rounds: seq<Round>, p: string)
  {
    forall k :: 0 <= k < |rounds| ==> rounds[k].Round? && p !in rounds[k].alive
  }

  lemma {:induction false} SpinForever(rounds: seq<Round>, p: string, from: nat)
    requires from <= |rounds| && AlwaysGone(rounds, p)
    ensures Spin(rounds, p, from) == Unfinished
    ensures SpinProbes(rounds, p, from) == seq(|rounds| - from, _ => p)
    decreases |rounds| - from
  {
    if from < |rounds| {
      SpinForever(rounds, p, from + 1);
      assert seq(|rounds| - from, _ => p) == [p] + seq(|rounds| - (from + 1), _ => p);
    }
  }

  /** With a stale snapshot the server loop cannot move on once its
      predecessor is gone: however many passes the service answers, and
      whatever later listings would show, it asks about the same vanished
      name every time and never returns. */
  lemma StaleSnapshotSpins(rounds: seq<Round>, me: string, p: string)
    requires |rounds| > 0 && rounds[0].Round?
    requires Decide(Sort(rounds[0].children), me) == Follower(p)
    requires AlwaysGone(rounds, p)
    ensures ServerRun(rounds, me) == Unfinished
    ensures ServerProbes(rounds, me) == seq(|rounds|, _ => p)
  {
    SpinForever(rounds, p, 0);
  }

  /** On the same answers where the server loop spins, the management loop
      lists the children again and watches the new predecessor. */
  lemma VariantsDiverge(rounds: seq<Round>, me: string, p: string, q: string)
    requires |rounds| >= 2 && rounds[0].Round? && rounds[1].Round?
    requires Decide(Sort(rounds[0].children), me) == Follower(p)
    requires Decide(Sort(rounds[1].children), me) == Follower(q) && q in rounds[1].alive
    requires AlwaysGone(rounds, p)
    ensures ServerRun(rounds, me) == Unfinished
    ensures Run(rounds, me, 0) == Watching(q)
  {
    StaleSnapshotSpins(rounds, me, p);
    RetryStep(rounds, me, 0);
  }
}
