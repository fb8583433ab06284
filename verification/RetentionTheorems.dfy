/** What ids, limits and ages come to over every run, in terms of when each record was stored. */
module RetentionTheorems {
  import opened Wrappers
  import opened StreamLog
  import opened Retention
  import opened StreamState
  import opened StreamInvariant
  import opened StreamTheorems

  // --------------------------------------------------------------- ids and time

  /** The id in front of position i. */
  function IdBefore(history: seq<Entry>, i: nat): StreamId
    requires i <= |history|
  {
    if i == 0 then ZERO else history[i - 1].id
  }

  /** An id carries the time its entry was stored, and numbers the entries of one millisecond. */
  predicate Carries(id: StreamId, last: StreamId, storedAt: nat) {
    id.ms == storedAt && id.sequence == if id.ms == last.ms then last.sequence + 1 else 0
  }

  ghost predicate AllCarry(history: seq<Entry>, stamps: seq<Stamp>) {
    |stamps| == |history|
    && forall i: nat | i < |history| :: Carries(history[i].id, IdBefore(history, i), stamps[i].storedAt)
  }

  ghost predicate Timed(st: State) {
    && AllCarry(st.history, st.stamps)
    && st.lastGenerated == IdBefore(st.history, |st.history|) && st.lastGenerated.ms <= st.now
  }

  lemma AllCarryMore(history: seq<Entry>, stamps: seq<Stamp>, e: Entry, stamp: Stamp)
    requires AllCarry(history, stamps) && Carries(e.id, IdBefore(history, |history|), stamp.storedAt)
    ensures AllCarry(history + [e], stamps + [stamp]) && IdBefore(history + [e], |history| + 1) == e.id
  {
    hide Carries;
    var more := history + [e];
    forall i: nat | i < |more| ensures Carries(more[i].id, IdBefore(more, i), (stamps + [stamp])[i].storedAt) {
      assert IdBefore(more, i) == IdBefore(history, i);
    }
  }

  lemma NextIdCarries(last: StreamId, now: nat)
    requires last.ms <= now
    ensures Carries(NextId(last, now), last, now)
  {
  }

  lemma AppendOneTimed(st: State, input: Input, ttl: Millis)
    requires Timed(st)
    ensures Timed(AppendOne(st, input, ttl).0)
  {
    hide BodyAt, AllCarry, IdBefore, NextId;
    NextIdCarries(st.lastGenerated, st.now);
    var e, stamp := Entry(NextId(st.lastGenerated, st.now), input.body), Stamp(input.key, st.now, ttl);
    AllCarryMore(st.history, st.stamps, e, stamp);
    assert Carries(e.id, st.lastGenerated, st.now);
  }

  lemma {:induction false} AppendAllTimed(st: State, batch: seq<Input>, ttl: Millis)
    requires Timed(st)
    ensures Timed(AppendAll(st, batch, ttl).0)
  {
    hide Timed;
    if batch != [] {
      AppendAllTimed(st, batch[..|batch| - 1], ttl);
      AppendOneTimed(AppendAll(st, batch[..|batch| - 1], ttl).0, batch[|batch| - 1], ttl);
    }
  }

  lemma NextTimed(st: State, step: Step)
    requires Timed(st)
    ensures Timed(Next(st, step))
  {
    if step.Append? {
      AppendAllTimed(st, step.batch, step.ttl);
    }
  }

  lemma {:induction false} RunTimed(steps: seq<Step>)
    ensures Timed(Run(steps))
  {
    if steps != [] {
      RunTimed(steps[..|steps| - 1]);
      NextTimed(Run(steps[..|steps| - 1]), steps[|steps| - 1]);
    }
  }

  /** An id is the time its record was stored, and its place among the records of that millisecond. */
  lemma {:induction false} IdsAreTimes(steps: seq<Step>, i: nat)
    requires i < |Run(steps).history|
    ensures var st := Run(steps);
            && i < |st.stamps| && st.history[i].id.ms == st.stamps[i].storedAt <= st.now
            && (i > 0 && st.stamps[i].storedAt == st.stamps[i - 1].storedAt ==>
                  st.history[i].id.sequence == st.history[i - 1].id.sequence + 1)
            && ((if i > 0 then st.stamps[i].storedAt != st.stamps[i - 1].storedAt else st.stamps[i].storedAt > 0) ==>
                  st.history[i].id.sequence == 0)
  {
    RunTimed(steps);
    EveryRunKeepsInv(steps);
    var st := Run(steps);
    assert Carries(st.history[i].id, IdBefore(st.history, i), st.stamps[i].storedAt);
    assert i > 0 ==> Carries(st.history[i - 1].id, IdBefore(st.history, i - 1), st.stamps[i - 1].storedAt);
  }

  // --------------------------------------------------------------- what rules remove

  /** AGE removes a record exactly when more than the age limit has passed since it was stored. */
  lemma {:induction false} AgeRemovesExactlyTheOld(steps: seq<Step>, i: nat)
    requires Run(steps).ensured && Gone(Run(steps)) <= i < |Run(steps).history|
    ensures i < |Run(steps).stamps|
    ensures var st, after := Run(steps), Run(steps + [Age]);
            && after.history == st.history
            && (st.history[i] !in after.entries <==>
                  && st.limits.maxAgeMs.Some?
                  && var age := st.limits.maxAgeMs.value;
                     age == 0 || st.stamps[i].storedAt + age < st.now)
  {
    hide Next, BoundaryInv, DedupeInv, Timed;
    RunSnoc(steps, Age);
    EveryRunKeepsInv(steps);
    RunTimed(steps);
    AgeOnState(Run(steps), i);
  }

  lemma AgeOnState(st: State, i: nat)
    requires LogInv(st) && Timed(st) && st.ensured && Gone(st) <= i < |st.history|
    ensures i < |st.stamps|
    ensures var after := Next(st, Age);
            && after.history == st.history
            && (st.history[i] !in after.entries <==>
                  && st.limits.maxAgeMs.Some?
                  && var age := st.limits.maxAgeMs.value;
                     age == 0 || st.stamps[i].storedAt + age < st.now)
  {
    hide AgePrefix, Bytes, Sorted, AllCarry, MarkPrefix;
    var n := AgePrefix(st.entries, st.limits, st.now);
    AgeCuts(st.history, Gone(st), st.limits, st.now, i);
    RemoveLeaves(st, n);
    SliceHolds(st.history, Gone(st) + n, i);
    CarriesAt(st.history, st.stamps, i);
  }

  lemma CarriesAt(history: seq<Entry>, stamps: seq<Stamp>, i: nat)
    requires AllCarry(history, stamps) && i < |history|
    ensures |stamps| == |history| && history[i].id.ms == stamps[i].storedAt
  {
    assert Carries(history[i].id, IdBefore(history, i), stamps[i].storedAt);
  }

  lemma AgeCuts(history: seq<Entry>, g: nat, limits: Limits, now: nat, i: nat)
    requires Sorted(history) && g <= i < |history|
    ensures g + AgePrefix(history[g..], limits, now) <= i <==>
              limits.maxAgeMs.Some? ==> limits.maxAgeMs.value > 0 && now <= history[i].id.ms + limits.maxAgeMs.value
  {
    hide AgePrefix, Sorted, YoungEnough;
    SuffixSorted(history, g);
    AgePrefixIsLeast(history[g..], limits, now, i - g);
    SuffixYoung(history[g..], limits, now, i - g);
  }

  lemma RemoveLeaves(st: State, n: nat)
    requires LogInv(st) && n <= |st.entries|
    ensures Gone(st) >= 0 && RemovePrefix(st, n).history == st.history
    ensures RemovePrefix(st, n).entries == st.history[Gone(st) + n..]
  {
    assert st.history[Gone(st)..][n..] == st.history[Gone(st) + n..];
  }

  /** A suffix of a sorted stream is as old as its first entry. */
  lemma SuffixYoung(s: seq<Entry>, limits: Limits, now: nat, k: nat)
    requires Sorted(s) && k < |s|
    ensures YoungEnough(s[k..], limits, now) <==>
              limits.maxAgeMs.Some? ==> limits.maxAgeMs.value > 0 && now <= s[k].id.ms + limits.maxAgeMs.value
  {
    assert s[k..][0] == s[k];
    assert forall j | 0 < j < |s| - k :: Less(s[k].id, s[k + j].id) && s[k..][j] == s[k + j];
  }

  /** TRIM removes the shortest prefix that leaves a stream within all three limits. */
  lemma {:induction false} TrimRemovesTheLeast(steps: seq<Step>, k: nat)
    requires Run(steps).ensured && k <= |Run(steps).entries|
    ensures var st, after := Run(steps), Run(steps + [Trim]);
            && after.history == st.history && after.limits == st.limits && after.now == st.now
            && (|st.entries| - k <= |after.entries| <==> Keepable(st.entries[k..], st.limits, st.now))
  {
    hide BoundaryInv, DedupeInv, Keepable, Expendable;
    RunSnoc(steps, Trim);
    EveryRunKeepsInv(steps);
    var st := Run(steps);
    SuffixSorted(st.history, Gone(st));
    ExpendableIsLeast(st.entries, st.limits, st.now, k);
  }

  // --------------------------------------------------------------- limits and clock

  lemma {:induction false} NextEnsured(st: State, step: Step)
    requires Inv(st)
    ensures st.ensured ==> Next(st, step).ensured && Next(st, step).limits == st.limits
    ensures !st.ensured ==> (Next(st, step).ensured <==> step.Ensure?)
    ensures !st.ensured && step.Ensure? ==> Next(st, step).limits == step.limits
  {
    hide Inv, AppendStep, Expendable, AgePrefix;
    if step.Append? {
      AppendKeepsLimits(st, step.batch, step.ttl);
    }
  }

  lemma AppendKeepsLimits(st: State, batch: seq<Input>, ttl: Millis)
    requires Inv(st)
    ensures AppendStep(st, batch, ttl).0.ensured == st.ensured && AppendStep(st, batch, ttl).0.limits == st.limits
  {
    hide BoundaryInv, KeysInv, Apart, LogInv, OverLimit;
    AppendAllKeeps(st, batch, ttl);
  }

  /** A stream is ensured from the first ENSURE on, with that one's limits, whatever later ones ask for. */
  lemma {:induction false} LimitsAreTheFirst(steps: seq<Step>, i: nat)
    requires i <= |steps| && (forall j | 0 <= j < i :: !steps[j].Ensure?) && (i < |steps| ==> steps[i].Ensure?)
    ensures Run(steps).ensured <==> i < |steps|
    ensures i < |steps| ==> Run(steps).limits == steps[i].limits
  {
    hide Next, Inv;
    if steps != [] {
      var n := |steps| - 1;
      LimitsAreTheFirst(steps[..n], if i <= n then i else n);
      EveryRunKeepsInv(steps[..n]);
      NextEnsured(Run(steps[..n]), steps[n]);
    }
  }

  lemma NextClock(st: State, step: Step)
    requires Inv(st)
    ensures Next(st, step).now == st.now + if step.Tick? then step.ms else 0
  {
    hide Inv, AppendStep;
    if step.Append? {
      AppendKeepsClock(st, step.batch, step.ttl);
    }
  }

  function Elapsed(steps: seq<Step>): nat {
    if steps == [] then 0
    else Elapsed(steps[..|steps| - 1]) + if steps[|steps| - 1].Tick? then steps[|steps| - 1].ms else 0
  }

  /** Only time passing moves the clock. */
  lemma {:induction false} ClockAddsUp(steps: seq<Step>)
    ensures Run(steps).now == Elapsed(steps)
  {
    hide Inv, Next;
    if steps != [] {
      var n := |steps| - 1;
      ClockAddsUp(steps[..n]);
      EveryRunKeepsInv(steps[..n]);
      NextClock(Run(steps[..n]), steps[n]);
    }
  }
}
