/**
  The shared command client: a promise chain that serializes operations, and the bound on
  each command with its one narrow retry.
 */
module CommandQueue {

  /** An operation waits for its predecessor's promise, runs, and resolves its own. */
  datatype Phase = Waiting | Running | Released

  /** Operations in call order; `started` records the order in which they got the client. */
  datatype Queue = Queue(operations: seq<Phase>, started: seq<nat>, closed: bool)

  const EMPTY := Queue([], [], false)

  datatype Step =
    | Call            // useCommandClient is entered
    | Wake(i: nat)    // the awaited promise has resolved
    | Finish(i: nat)  // the operation returned or threw; `finally` resolves its promise
    | Close

  /** The promise an operation awaits: that of the operation called just before it. */
  predicate PreviousResolved(q: Queue, i: nat)
    requires i < |q.operations|
  {
    i == 0 || q.operations[i - 1].Released?
  }

  predicate Enabled(q: Queue, step: Step) {
    match step
    case Call => true
    case Wake(i) => i < |q.operations| && q.operations[i].Waiting? && PreviousResolved(q, i)
    case Finish(i) => i < |q.operations| && q.operations[i].Running?
    case Close => true
  }

  /** A call on a closed manager throws before it joins the queue; one that wakes to it releases at once. */
  function Next(q: Queue, step: Step): Queue {
    if !Enabled(q, step) then q
    else
      match step
      case Call => if q.closed then q else q.(operations := q.operations + [Waiting])
      case Wake(i) =>
        if q.closed then q.(operations := q.operations[i := Released])
        else q.(operations := q.operations[i := Running], started := q.started + [i])
      case Finish(i) => q.(operations := q.operations[i := Released])
      case Close => q.(closed := true)
  }

  function Run(steps: seq<Step>): Queue {
    if steps == [] then EMPTY else Next(Run(steps[..|steps| - 1]), steps[|steps| - 1])
  }

  /** Released operations, then at most one running, then waiting ones. */
  ghost predicate Inv(q: Queue, k: nat) {
    && k <= |q.operations|
    && (forall i | 0 <= i < k :: q.operations[i].Released?)
    && (k < |q.operations| ==> !q.operations[k].Released?)
    && (forall i | k < i < |q.operations| :: q.operations[i].Waiting?)
    && (forall i | 0 <= i < |q.started| :: q.started[i] == i)
    && |q.started| <= k + (if k < |q.operations| && q.operations[k].Running? then 1 else 0)
    && (!q.closed || (k < |q.operations| && q.operations[k].Running?) ==>
          |q.started| == k + if k < |q.operations| && q.operations[k].Running? then 1 else 0)
  }

  lemma NextKeepsInv(q: Queue, k: nat, step: Step) returns (k': nat)
    requires Inv(q, k)
    ensures Inv(Next(q, step), k') && k <= k'
  {
    k' := k;
    if Enabled(q, step) {
      match step
      case Call =>
      case Wake(i) =>
        assert i == k;
        if q.closed { k' := k + 1; }
      case Finish(i) =>
        assert i == k;
        k' := k + 1;
      case Close =>
    }
  }

  lemma {:induction false} RunInv(steps: seq<Step>) returns (k: nat)
    ensures Inv(Run(steps), k)
  {
    k := 0;
    if steps != [] {
      k := RunInv(steps[..|steps| - 1]);
      k := NextKeepsInv(Run(steps[..|steps| - 1]), k, steps[|steps| - 1]);
    }
  }

  /**
    Operations hold the client one at a time and in call order: while one runs, every
    earlier one has released and no later one has started.
   */
  lemma {:induction false} OneAtATimeInCallOrder(steps: seq<Step>, i: nat, j: nat)
    requires i < |Run(steps).operations| && j < |Run(steps).operations| && Run(steps).operations[i].Running?
    ensures j < i ==> Run(steps).operations[j].Released?
    ensures j > i ==> Run(steps).operations[j].Waiting?
    ensures forall a, b | 0 <= a < b < |Run(steps).started| :: Run(steps).started[a] < Run(steps).started[b]
  {
    var k := RunInv(steps);
    assert i == k;
  }

  /** The operations that have held the client are the first ones, in call order; before close, all that no longer wait. */
  lemma {:induction false} StartedInCallOrder(steps: seq<Step>, i: nat)
    requires i < |Run(steps).operations|
    ensures forall n | 0 <= n < |Run(steps).started| :: Run(steps).started[n] == n
    ensures Run(steps).operations[i].Running? ==> |Run(steps).started| == i + 1
    ensures !Run(steps).closed ==> (i < |Run(steps).started| <==> !Run(steps).operations[i].Waiting?)
  {
    var k := RunInv(steps);
  }

  /** How many calls come before close. */
  function CallsInTime(steps: seq<Step>): nat {
    if steps == [] then 0
    else
      var n := |steps| - 1;
      CallsInTime(steps[..n]) + if steps[n].Call? && Close !in steps[..n] then 1 else 0
  }

  /** Exactly the calls made before close join the queue, and only close closes it. */
  lemma {:induction false} CallsJoinUntilClose(steps: seq<Step>)
    ensures Run(steps).closed <==> Close in steps
    ensures |Run(steps).operations| == CallsInTime(steps)
  {
    if steps != [] {
      var n := |steps| - 1;
      CallsJoinUntilClose(steps[..n]);
      assert steps == steps[..n] + [steps[n]];
    }
  }

  /** An operation that waits runs next, or is released unrun if the manager closed meanwhile; one that runs is released. */
  lemma {:induction false} OperationsMoveOn(steps: seq<Step>, i: nat)
    requires i < |Run(steps).operations|
    ensures var q := Run(steps);
            && Run(steps + [Wake(i)]).operations[i]
               == (if q.operations[i].Waiting? && (i == 0 || q.operations[i - 1].Released?)
                   then (if q.closed then Released else Running) else q.operations[i])
            && Run(steps + [Finish(i)]).operations[i]
               == (if q.operations[i].Running? then Released else q.operations[i])
  {
    assert (steps + [Wake(i)])[..|steps|] == steps && (steps + [Finish(i)])[..|steps|] == steps;
  }

  /** The queue is never stuck: its first unreleased operation can always move on, even after close. */
  lemma {:induction false} NeverStuck(steps: seq<Step>, i: nat)
    requires i < |Run(steps).operations| && !Run(steps).operations[i].Released?
    ensures exists j :: 0 <= j <= i && (Enabled(Run(steps), Wake(j)) || Enabled(Run(steps), Finish(j)))
  {
    var k := RunInv(steps);
    var q := Run(steps);
    assert k <= i;
    assert Enabled(q, if q.operations[k].Waiting? then Wake(k) else Finish(k));
  }

  /** `close` waits for the newest promise; once it resolves, nothing holds the client. */
  lemma {:induction false} CloseWaitsForAll(steps: seq<Step>, i: nat)
    requires i < |Run(steps).operations| && Run(steps).operations[|Run(steps).operations| - 1].Released?
    ensures Run(steps).operations[i].Released?
  {
    var k := RunInv(steps);
  }

  /** After close nothing starts any more, however the run goes on; calls that come later never join the queue. */
  lemma {:induction false} NothingStartsAfterClose(steps: seq<Step>, more: seq<Step>)
    requires Run(steps).closed
    ensures Run(steps + more).closed
    ensures Run(steps + more).started == Run(steps).started
    ensures |Run(steps + more).operations| == |Run(steps).operations|
  {
    if more == [] {
      assert steps + more == steps;
    } else {
      NothingStartsAfterClose(steps, more[..|more| - 1]);
      assert (steps + more)[..|steps + more| - 1] == steps + more[..|more| - 1];
    }
  }
}

module CommandClient {
  import opened Wrappers

  type Value = string

  /** How one execution of a command ends. `Unsent` is the one error that proves it was never sent. */
  datatype Outcome = Answered(value: Value) | Unsent | Rejected | TimedOut

  datatype CommandError = CommandFailed(outcome: Outcome) | ConnectFailed | BrokerClosed

  datatype Execution = Execution(command: nat, client: nat, outcome: Outcome)

  /** What the environment answers: to each execution, to each connection attempt, and whether close came meanwhile. */
  datatype Environment = Environment(outcome: nat -> Outcome, connects: nat -> bool, closedBy: nat -> bool)

  /** An execution whose effects Redis may have applied. */
  predicate MayHaveApplied(e: Execution) {
    !e.outcome.Unsent?
  }

  /** The executions of one command: at most two, and only the last may have been applied. */
  ghost predicate OneCommand(log: seq<Execution>, command: nat) {
    && 1 <= |log| <= 2
    && (forall e | e in log :: e.command == command)
    && (forall i | 0 <= i < |log| - 1 :: !MayHaveApplied(log[i]) && log[i].client != log[i + 1].client)
  }

  class RedisConnectionManager {
    var client: Option<nat>
    var created: nat
    var attempts: nat
    var discarded: set<nat>
    var closed: bool
    /** Every execution there has been. */
    var log: seq<Execution>

    constructor ()
      ensures Valid() && client == None && log == [] && !closed
    {
      client, created, attempts, discarded, closed, log := None, 0, 0, {}, false, [];
    }

    ghost predicate Valid()
      reads this
    {
      && (client.Some? ==> client.value < created && client.value !in discarded)
      && (forall c | c in discarded :: c < created)
    }

    method Connect(env: Environment) returns (connected: Option<nat>)
      requires Valid()
      modifies this`client, this`created, this`attempts
      ensures Valid() && connected == client && created >= old(created)
      ensures old(client).Some? ==> client == old(client)
      ensures old(client).Some? ==> created == old(created) && attempts == old(attempts)
      ensures old(client).None? ==> attempts == old(attempts) + 1
      ensures old(client).None? ==> client == if env.connects(old(attempts)) then Some(old(created)) else None
    {
      if client.Some? {
        return client;
      }
      attempts := attempts + 1;
      if env.connects(attempts - 1) {
        client, created := Some(created), created + 1;
      }
      connected := client;
    }

    method Discard(target: nat)
      requires Valid() && target < created
      modifies this`client, this`discarded
      ensures Valid() && discarded == old(discarded) + {target}
      ensures client == if old(client) == Some(target) then None else old(client)
    {
      if client == Some(target) {
        client := None;
      }
      discarded := discarded + {target};
    }

    /** One execution; a client that does not answer in time is never used again. */
    method Execute(command: nat, target: nat, env: Environment) returns (outcome: Outcome)
      requires Valid() && target < created
      modifies this`client, this`discarded, this`log
      ensures Valid() && log == old(log) + [Execution(command, target, outcome)]
      ensures outcome.TimedOut? ==> target in discarded && client != Some(target)
      ensures !outcome.TimedOut? ==> client == old(client) && discarded == old(discarded)
      ensures client == old(client) || old(client) == Some(target)
      ensures discarded <= old(discarded) + {target} && old(discarded) <= discarded
    {
      outcome := env.outcome(|log|);
      log := log + [Execution(command, target, outcome)];
      if outcome.TimedOut? {
        Discard(target);
      }
    }

    /**
      One command of an operation. `active` is the client the operation uses; a
      replacement stays in use for its later commands.
     */
    method RunCommand(command: nat, active: nat, env: Environment) returns (result: Result<Value, CommandError>,
                      active': nat)
      requires Valid() && active < created
      modifies this
      ensures Valid() && active' < created && created >= old(created)
      ensures |old(log)| < |log| <= |old(log)| + 2 && log[..|old(log)|] == old(log) && OneCommand(log[|old(log)|..], command)
      ensures result.Ok? <==> log[|log| - 1].outcome.Answered?
      ensures result.Ok? ==> result.value == log[|log| - 1].outcome.value
      ensures log[|log| - 1].outcome.TimedOut? ==> log[|log| - 1].client in discarded && client != Some(log[|log| - 1].client)
      // A subscription's own client is never swapped for the shared one.
      ensures old(client) != Some(active) ==> |log| == |old(log)| + 1 && active' == active && client == old(client)
      // A retry happens exactly when the shared client proved it sent nothing and a new one could be had.
      ensures |log| == |old(log)| + 2 ==> old(client) == Some(active) && log[|log| - 1].client == active' >= old(created)
      ensures old(client) == Some(active) && log[|old(log)|].outcome.Unsent? && |log| == |old(log)| + 1 ==>
                if closed then result == Err(BrokerClosed) else result == Err(ConnectFailed) && !env.connects(old(attempts))
      ensures result.Err? && result.error.CommandFailed? ==> result.error.outcome == log[|log| - 1].outcome
    {
      active' := active;
      var attempt := 0;
      while true
        invariant 0 <= attempt <= 1 && Valid() && active' < created && created >= old(created)
        invariant |log| == |old(log)| + attempt && log[..|old(log)|] == old(log)
        invariant attempt == 0 ==> active' == active && client == old(client) && attempts == old(attempts)
        invariant attempt == 1 ==> log[|old(log)|] == Execution(command, active, Unsent)
        invariant attempt == 1 ==> old(client) == Some(active) && old(created) <= active' && client == Some(active')
        decreases 2 - attempt
      {
        var outcome := Execute(command, active', env);
        if outcome.Answered? {
          return Ok(outcome.value), active';
        }
        if client != Some(active') || !outcome.Unsent? {
          return Err(CommandFailed(outcome)), active';
        }
        Discard(active');
        if attempt == 1 {
          return Err(CommandFailed(outcome)), active';
        }
        closed := closed || env.closedBy(|log|);
        if closed {
          return Err(BrokerClosed), active';
        }
        var connected := Connect(env);
        if connected.None? {
          return Err(ConnectFailed), active';
        }
        active' := connected.value;
        attempt := attempt + 1;
      }
    }

    /**
      The commands of one operation, until one throws. `runs` splits what was executed by
      command: the c-th command had the executions runs[c], and nothing else was executed.
     */
    method RunOperation(commands: nat, env: Environment)
      returns (result: Result<seq<Value>, CommandError>, ghost runs: seq<seq<Execution>>)
      requires Valid()
      modifies this
      ensures Valid() && log == old(log) + Flatten(runs)
      ensures |runs| <= commands && forall c | 0 <= c < |runs| :: OneCommand(runs[c], c)
      ensures result.Ok? ==> |result.value| == |runs| == commands
      ensures result.Ok? ==> forall c | 0 <= c < commands :: LastOutcome(runs[c]) == Answered(result.value[c])
      ensures forall c | 0 <= c < |runs| - 1 :: LastOutcome(runs[c]).Answered?
      // It fails only on a closed manager, without a connection, or after the last command it executed.
      ensures old(closed) ==> result == Err(BrokerClosed) && runs == []
      ensures !old(closed) && runs == [] && commands > 0 ==>
                result == Err(ConnectFailed) && old(client).None? && !env.connects(old(attempts))
      ensures result.Err? && runs != [] ==> !LastOutcome(runs[|runs| - 1]).Answered?
    {
      hide OneCommand, MayHaveApplied, Flatten, LastOutcome;
      runs := [];
      FlattenNothing<Execution>();
      if closed {
        return Err(BrokerClosed), [];
      }
      var connected := Connect(env);
      if connected.None? {
        return Err(ConnectFailed), [];
      }
      var active: nat := connected.value;
      var values: seq<Value> := [];
      for c := 0 to commands
        invariant Valid() && active < created
        invariant log == old(log) + Flatten(runs) && |values| == |runs| == c
        invariant forall d | 0 <= d < c :: OneCommand(runs[d], d) && LastOutcome(runs[d]) == Answered(values[d])
      {
        ghost var before := log;
        var r;
        r, active := RunCommand(c, active, env);
        ghost var run := log[|before|..];
        FlattenMore(runs, run);
        assert log == before + run;
        LastOutcomeIs(run);
        runs := runs + [run];
        if r.Err? {
          return Err(r.error), runs;
        }
        values := values + [r.value];
      }
      result := Ok(values);
    }
  }

  function LastOutcome(run: seq<Execution>): Outcome {
    if run == [] then Unsent else run[|run| - 1].outcome
  }

  lemma LastOutcomeIs(run: seq<Execution>)
    requires run != []
    ensures LastOutcome(run) == run[|run| - 1].outcome
  {
  }

  lemma {:induction false} JoinedBelow(runs: seq<seq<Execution>>)
    requires forall c | 0 <= c < |runs| :: OneCommand(runs[c], c)
    ensures forall e | e in Flatten(runs) :: e.command < |runs|
  {
    if runs != [] {
      JoinedBelow(runs[..|runs| - 1]);
    }
  }

  /**
    No command of an operation is applied twice, and once a later command has been
    executed no earlier one is replayed.
   */
  lemma {:induction false} NoReplay(runs: seq<seq<Execution>>, i: nat, j: nat)
    requires forall c | 0 <= c < |runs| :: OneCommand(runs[c], c)
    requires i < j < |Flatten(runs)|
    ensures Flatten(runs)[i].command <= Flatten(runs)[j].command
    ensures Flatten(runs)[i].command == Flatten(runs)[j].command ==>
              j == i + 1 && Flatten(runs)[i].outcome.Unsent? && Flatten(runs)[i].client != Flatten(runs)[j].client
  {
    var n := |runs| - 1;
    var before := Flatten(runs[..n]);
    JoinedBelow(runs[..n]);
    if j < |before| {
      NoReplay(runs[..n], i, j);
    } else {
      assert Flatten(runs)[j] == runs[n][j - |before|] && runs[n][j - |before|] in runs[n];
      if i < |before| {
        assert before[i] in before;
      } else {
        assert Flatten(runs)[i] == runs[n][i - |before|] && runs[n][i - |before|] in runs[n];
      }
    }
  }
}
