/** What every step of the broker stream keeps. */
module StreamInvariant {
  import opened Wrappers
  import opened StreamLog
  import opened Retention
  import opened StreamState

  /** How many of the entries ever appended are physically gone. */
  function Gone(st: State): int {
    |st.history| - |st.entries|
  }

  ghost predicate Ordered(history: seq<Entry>, lastGenerated: StreamId) {
    && Sorted(history)
    && (history != [] ==> Less(ZERO, history[0].id) && AtMost(history[|history| - 1].id, lastGenerated))
  }

  /** The physical stream is the newest part of the history, and its bytes are exact. */
  ghost predicate LogInv(st: State) {
    && Ordered(st.history, st.lastGenerated)
    && 0 <= Gone(st)
    && st.entries == st.history[Gone(st)..]
    && st.retainedBytes == Bytes(st.entries)
  }

  /** The boundary is exactly the mark of the physical stream. */
  ghost predicate BoundaryInv(st: State)
    requires LogInv(st)
  {
    && st.lastTrimmedId == LastOf(st.history, Gone(st) + OverLimit(st.entries, st.limits))
    && st.lastId == LastOf(st.history, |st.history|)
    && (!st.ensured ==> st.history == [])
  }

  /** Entry i was stored under a key whose window is still open. */
  ghost predicate Open(stamps: seq<Stamp>, now: nat, i: int) {
    0 <= i < |stamps| && stamps[i].key.Some? && now < stamps[i].Deadline()
  }

  ghost predicate Names(history: seq<Entry>, stamps: seq<Stamp>, i: int, key: string, slot: Slot) {
    0 <= i < |stamps| && i < |history|
    && stamps[i].key == Some(key) && slot == Slot(history[i].id, stamps[i].Deadline())
  }

  /** Every open window has its key set, and every key that is set names an entry stored under it. */
  ghost predicate KeysInv(dedupe: map<string, Slot>, now: nat, history: seq<Entry>, stamps: seq<Stamp>) {
    && |stamps| == |history|
    && (forall i | Open(stamps, now, i) ::
          stamps[i].key.value in dedupe && Names(history, stamps, i, stamps[i].key.value, dedupe[stamps[i].key.value]))
    && (forall key | key in dedupe :: exists i :: Names(history, stamps, i, key, dedupe[key]))
  }

  /** Entries stored under one key lie at least one window apart. */
  ghost predicate Apart(now: nat, stamps: seq<Stamp>) {
    && (forall i | 0 <= i < |stamps| :: stamps[i].storedAt <= now)
    && (forall i, j | 0 <= i < j < |stamps| && stamps[i].key.Some? && stamps[i].key == stamps[j].key ::
          stamps[i].Deadline() <= stamps[j].storedAt)
  }

  ghost predicate DedupeInv(st: State) {
    KeysInv(st.dedupe, st.now, st.history, st.stamps) && Apart(st.now, st.stamps)
  }

  ghost predicate Inv(st: State) {
    LogInv(st) && BoundaryInv(st) && DedupeInv(st)
  }

  // -------------------------------------------------------------- the trims

  lemma AdvanceAlongHistory(history: seq<Entry>, t: nat, u: nat)
    requires Sorted(history) && t <= |history| && u <= |history|
    ensures Advance(LastOf(history, t), LastOf(history, u)) == LastOf(history, Max(t, u))
  {
    if t > 0 && u > 0 {
      if t < u { assert Less(history[t - 1].id, history[u - 1].id); }
      if u < t { assert Less(history[u - 1].id, history[t - 1].id); }
    }
  }

  /** Marking a prefix of the stream moves the boundary along the history. */
  lemma MarkAlongHistory(st: State, t: nat, k: nat)
    requires LogInv(st) && k <= |st.entries| && t <= |st.history|
    requires st.lastTrimmedId == LastOf(st.history, t) && Gone(st) <= t
    ensures MarkPrefix(st, k).lastTrimmedId == LastOf(st.history, Max(t, Gone(st) + k))
  {
    assert LastOf(st.entries, k) == if k == 0 then None else LastOf(st.history, Gone(st) + k);
    AdvanceAlongHistory(st.history, t, Gone(st) + k);
  }

  lemma RemovePrefixLogs(st: State, k: nat)
    requires LogInv(st) && k <= |st.entries|
    ensures LogInv(RemovePrefix(st, k)) && Gone(RemovePrefix(st, k)) == Gone(st) + k
  {
    assert st.history[Gone(st)..][k..] == st.history[Gone(st) + k..];
  }

  lemma RemovePrefixBounds(st: State, k: nat)
    requires LogInv(st) && BoundaryInv(st) && k <= |st.entries|
    requires LogInv(RemovePrefix(st, k)) && Gone(RemovePrefix(st, k)) == Gone(st) + k
    ensures BoundaryInv(RemovePrefix(st, k))
  {
    hide Ordered, Bytes, OverLimit, LastOf, Advance;
    OverLimitTail(st.entries, st.limits, k);
    MarkAlongHistory(st, Gone(st) + OverLimit(st.entries, st.limits), k);
  }

  lemma RemovePrefixKeepsInv(st: State, k: nat)
    requires Inv(st) && k <= |st.entries|
    ensures Inv(RemovePrefix(st, k))
  {
    RemovePrefixLogs(st, k);
    RemovePrefixBounds(st, k);
  }

  // -------------------------------------------------------------- the append

  /** What appending leaves alone, and that it only adds at the end. */
  ghost predicate Grown(before: State, after: State) {
    && after.ensured == before.ensured && after.limits == before.limits && after.now == before.now
    && after.lastTrimmedId == before.lastTrimmedId && after.lastId == before.lastId
    && before.history <= after.history && before.stamps <= after.stamps
    && after.entries == before.entries + after.history[|before.history|..]
  }

  lemma AppendOneGrows(before: State, st: State, input: Input, ttl: Millis)
    requires Grown(before, st)
    ensures Grown(before, AppendOne(st, input, ttl).0)
  {
  }

  lemma NextIdIsNewer(lastGenerated: StreamId, now: nat)
    ensures Less(lastGenerated, NextId(lastGenerated, now))
  {
  }

  lemma BytesOfOne(e: Entry)
    ensures Bytes([e]) == |e.body|
  {
    assert [e][1..] == [];
  }

  lemma OrderedMore(history: seq<Entry>, lastGenerated: StreamId, e: Entry)
    requires Ordered(history, lastGenerated) && Less(lastGenerated, e.id)
    ensures Ordered(history + [e], e.id)
  {
    if history != [] {
      forall i | 0 <= i < |history| ensures Less(history[i].id, e.id) {
        assert i < |history| - 1 ==> Less(history[i].id, history[|history| - 1].id);
      }
    }
  }

  lemma AppendOneLogs(st: State, input: Input, ttl: Millis)
    requires LogInv(st)
    ensures LogInv(AppendOne(st, input, ttl).0)
  {
    hide Ordered, Bytes, BodyAt, NextId, Seen;
    if !Seen(st, input) {
      var entry := Entry(NextId(st.lastGenerated, st.now), input.body);
      BytesSplit(st.entries, [entry]);
      BytesOfOne(entry);
      NextIdIsNewer(st.lastGenerated, st.now);
      OrderedMore(st.history, st.lastGenerated, entry);
    }
  }

  lemma AppendOneSpaces(st: State, input: Input, ttl: Millis)
    requires DedupeInv(st)
    ensures Apart(st.now, AppendOne(st, input, ttl).0.stamps)
  {
    if !Seen(st, input) {
      forall i | 0 <= i < |st.stamps| && input.key.Some? && st.stamps[i].key == input.key
        ensures st.stamps[i].Deadline() <= st.now
      {
        assert !Open(st.stamps, st.now, i);
      }
    }
  }

  lemma AppendOneKeys(st: State, input: Input, ttl: Millis)
    requires DedupeInv(st)
    ensures var after := AppendOne(st, input, ttl).0;
            KeysInv(after.dedupe, after.now, after.history, after.stamps)
  {
    if !Seen(st, input) {
      var after := AppendOne(st, input, ttl).0;
      var n := |st.stamps|;
      forall i | Open(after.stamps, st.now, i)
        ensures after.stamps[i].key.value in after.dedupe
        ensures Names(after.history, after.stamps, i, after.stamps[i].key.value, after.dedupe[after.stamps[i].key.value])
      {
        if i < n {
          assert Open(st.stamps, st.now, i);
        }
      }
      forall key | key in after.dedupe
        ensures exists i :: Names(after.history, after.stamps, i, key, after.dedupe[key])
      {
        if input.key == Some(key) {
          assert Names(after.history, after.stamps, n, key, after.dedupe[key]);
        } else {
          var i :| Names(st.history, st.stamps, i, key, st.dedupe[key]);
          assert Names(after.history, after.stamps, i, key, after.dedupe[key]);
        }
      }
    }
  }

  lemma {:induction false} AppendAllKeeps(st: State, batch: seq<Input>, ttl: Millis)
    requires LogInv(st) && DedupeInv(st)
    ensures var after := AppendAll(st, batch, ttl).0;
            LogInv(after) && DedupeInv(after) && Grown(st, after)
  {
    if batch == [] {
      assert st.history[|st.history|..] == [];
    } else {
      var n := |batch| - 1;
      AppendAllKeeps(st, batch[..n], ttl);
      var mid := AppendAll(st, batch[..n], ttl).0;
      AppendOneLogs(mid, batch[n], ttl);
      AppendOneSpaces(mid, batch[n], ttl);
      AppendOneKeys(mid, batch[n], ttl);
      AppendOneGrows(st, mid, batch[n], ttl);
    }
  }

  /** Either nothing was stored and nothing changed, or the newest entry has the newest id. */
  lemma {:induction false} AppendAllStores(st: State, batch: seq<Input>, ttl: Millis)
    ensures var (after, replies) := AppendAll(st, batch, ttl);
            if AnyStored(replies) then after.history != [] && after.lastGenerated == after.history[|after.history| - 1].id
            else after == st
  {
    if batch != [] {
      var n := |batch| - 1;
      AppendAllStores(st, batch[..n], ttl);
      var (mid, replies) := AppendAll(st, batch[..n], ttl);
      var reply := AppendOne(mid, batch[n], ttl).1;
      AnyStoredSnoc(replies, reply);
    }
  }

  lemma AnyStoredSnoc(replies: seq<Reply>, reply: Reply)
    ensures AnyStored(replies + [reply]) <==> AnyStored(replies) || reply.Stored?
  {
    var all := replies + [reply];
    assert all[|replies|] == reply;
    assert forall i | 0 <= i < |replies| :: all[i] == replies[i];
  }

  /** An append leaves the old boundary somewhere at or before the new mark. */
  lemma GrownBoundary(st: State, mid: State)
    requires LogInv(st) && BoundaryInv(st) && LogInv(mid) && Grown(st, mid)
    ensures var t := Gone(st) + OverLimit(st.entries, st.limits);
            && Gone(mid) <= t <= Gone(mid) + OverLimit(mid.entries, mid.limits)
            && mid.lastTrimmedId == LastOf(mid.history, t)
  {
    hide Ordered, Bytes, OverLimit, LastOf;
    var more := mid.history[|st.history|..];
    OverLimitGrows(st.entries, more, st.limits);
    LastOfPrefix(st.history, more, Gone(st) + OverLimit(st.entries, st.limits));
    assert st.history + more == mid.history;
  }

  lemma LastOfPrefix(history: seq<Entry>, more: seq<Entry>, t: nat)
    requires t <= |history|
    ensures LastOf(history + more, t) == LastOf(history, t)
  {
  }

  lemma SettleBounds(mid: State, t: nat)
    requires LogInv(mid) && mid.ensured
    requires Gone(mid) <= t <= Gone(mid) + OverLimit(mid.entries, mid.limits)
    requires mid.lastTrimmedId == LastOf(mid.history, t)
    requires mid.history != [] && mid.lastGenerated == mid.history[|mid.history| - 1].id
    ensures LogInv(SettleAppend(mid)) && BoundaryInv(SettleAppend(mid))
  {
    MarkAlongHistory(mid, t, OverLimit(mid.entries, mid.limits));
  }

  lemma AppendKeepsInv(st: State, batch: seq<Input>, ttl: Millis)
    requires Inv(st)
    ensures Inv(AppendStep(st, batch, ttl).0)
  {
    hide LogInv, BoundaryInv, KeysInv, Apart;
    if st.ensured {
      AppendAllKeeps(st, batch, ttl);
      AppendAllStores(st, batch, ttl);
      var (mid, replies) := AppendAll(st, batch, ttl);
      if AnyStored(replies) {
        GrownBoundary(st, mid);
        SettleBounds(mid, Gone(st) + OverLimit(st.entries, st.limits));
      }
    }
  }

  // --------------------------------------------------------------- every run

  /** Time passing and keys expiring close windows, never open them. */
  lemma KeysLapse(dedupe: map<string, Slot>, now: nat, history: seq<Entry>, stamps: seq<Stamp>, key: string)
    requires KeysInv(dedupe, now, history, stamps)
    requires key in dedupe && dedupe[key].deadline <= now
    ensures KeysInv(dedupe - {key}, now, history, stamps)
  {
    forall k | k in dedupe - {key} ensures exists i :: Names(history, stamps, i, k, (dedupe - {key})[k]) {
      var i :| Names(history, stamps, i, k, dedupe[k]);
      assert Names(history, stamps, i, k, (dedupe - {key})[k]);
    }
  }

  lemma KeysAge(dedupe: map<string, Slot>, now: nat, history: seq<Entry>, stamps: seq<Stamp>, later: nat)
    requires KeysInv(dedupe, now, history, stamps) && now <= later
    ensures KeysInv(dedupe, later, history, stamps)
  {
    forall i | Open(stamps, later, i)
      ensures stamps[i].key.value in dedupe
      ensures Names(history, stamps, i, stamps[i].key.value, dedupe[stamps[i].key.value])
    {
      assert Open(stamps, now, i);
    }
  }

  lemma EnsureKeepsInv(st: State, limits: Limits)
    requires Inv(st)
    ensures Inv(EnsureStep(st, limits))
  {
  }

  lemma TrimKeepsInv(st: State)
    requires Inv(st)
    ensures Inv(TrimStep(st))
  {
    RemovePrefixKeepsInv(st, Expendable(st.entries, st.limits, st.now));
  }

  lemma AgeKeepsInv(st: State)
    requires Inv(st)
    ensures Inv(AgeStep(st))
  {
    RemovePrefixKeepsInv(st, AgePrefix(st.entries, st.limits, st.now));
  }

  lemma TickKeepsInv(st: State, ms: nat)
    requires Inv(st)
    ensures Inv(st.(now := st.now + ms))
  {
    hide KeysInv;
    KeysAge(st.dedupe, st.now, st.history, st.stamps, st.now + ms);
  }

  lemma ForgetKeepsInv(st: State, key: string)
    requires Inv(st)
    ensures Inv(ForgetStep(st, key))
  {
    hide KeysInv;
    if key in st.dedupe && st.dedupe[key].deadline <= st.now {
      KeysLapse(st.dedupe, st.now, st.history, st.stamps, key);
    }
  }

  lemma NextKeepsInv(st: State, step: Step)
    requires Inv(st)
    ensures Inv(Next(st, step))
  {
    hide Inv;
    match step
    case Ensure(limits) => EnsureKeepsInv(st, limits);
    case Append(batch, ttl) => AppendKeepsInv(st, batch, ttl);
    case Trim => TrimKeepsInv(st);
    case Age => AgeKeepsInv(st);
    case Tick(ms) => TickKeepsInv(st, ms);
    case Forget(key) => ForgetKeepsInv(st, key);
  }

  /** Every reachable state satisfies the invariant. */
  lemma {:induction false} EveryRunKeepsInv(steps: seq<Step>)
    ensures Inv(Run(steps))
  {
    if steps != [] {
      EveryRunKeepsInv(steps[..|steps| - 1]);
      NextKeepsInv(Run(steps[..|steps| - 1]), steps[|steps| - 1]);
    }
  }
}
