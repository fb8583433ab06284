/** What readers and writers of the broker stream may rely on, over every run. */
module StreamTheorems {
  import opened Wrappers
  import opened StreamLog
  import opened Retention
  import opened StreamState
  import opened StreamInvariant

  // ----------------------------------------------------------- the boundary

  predicate Newer(id: StreamId, boundary: Option<StreamId>) {
    boundary.None? || Less(boundary.value, id)
  }

  /** Where a read without a cursor starts. */
  function ReadStart(boundary: Option<StreamId>): Lower {
    if boundary.None? then Start else After(boundary.value)
  }

  /** Everything a read without a cursor, a limit or filters would scan. */
  function Visible(st: State): seq<Entry> {
    XRange(st.entries, ReadStart(st.lastTrimmedId), End, |st.entries|)
  }

  /** The boundary splits the history at one position. */
  lemma BoundarySplits(st: State)
    requires LogInv(st) && BoundaryInv(st)
    ensures forall i | 0 <= i < |st.history| ::
              Newer(st.history[i].id, st.lastTrimmedId) <==> Gone(st) + OverLimit(st.entries, st.limits) <= i
  {
    var t := Gone(st) + OverLimit(st.entries, st.limits);
    if t > 0 {
      forall i | 0 <= i < |st.history| ensures Newer(st.history[i].id, st.lastTrimmedId) <==> t <= i {
        if t <= i { assert Less(st.history[t - 1].id, st.history[i].id); }
        if i < t - 1 { assert Less(st.history[i].id, st.history[t - 1].id); }
      }
    }
  }

  lemma VisibleIsMarked(st: State)
    requires LogInv(st) && BoundaryInv(st)
    ensures Visible(st) == st.entries[OverLimit(st.entries, st.limits)..]
  {
    var s, m, g := st.entries, OverLimit(st.entries, st.limits), Gone(st);
    BoundarySplits(st);
    SuffixSorted(st.history, g);
    assert m > 0 ==> s[m - 1] == st.history[g + m - 1];
    assert m < |s| ==> s[m] == st.history[g + m];
    ReadFrom(s, st.lastTrimmedId, m);
  }

  /** A read from a boundary that falls between two positions returns everything behind it. */
  lemma ReadFrom(s: seq<Entry>, boundary: Option<StreamId>, m: nat)
    requires Sorted(s) && m <= |s|
    requires m > 0 ==> !Newer(s[m - 1].id, boundary)
    requires m < |s| ==> Newer(s[m].id, boundary)
    ensures XRange(s, ReadStart(boundary), End, |s|) == s[m..]
  {
    hide Sorted, XRange;
    SkipIs(s, ReadStart(boundary), m);
    ReachIs(s, End, |s|);
    XRangeSlice(s, ReadStart(boundary), End, |s|);
  }

  /**
    In every reachable state, between an append and its trim included, a reader sees
    exactly the longest part of the physical stream within both limits.
   */
  lemma {:induction false} VisibleIsLongestWithinLimits(steps: seq<Step>, k: nat)
    requires k <= |Run(steps).entries|
    ensures var st := Run(steps);
            && WithinLimits(Visible(st), st.limits)
            && |Visible(st)| <= |st.entries|
            && Visible(st) == st.entries[|st.entries| - |Visible(st)|..]
            && (WithinLimits(st.entries[k..], st.limits) ==> |st.entries| - k <= |Visible(st)|)
  {
    EveryRunKeepsInv(steps);
    var st := Run(steps);
    VisibleIsMarked(st);
    OverLimitIsLeast(st.entries, st.limits, OverLimit(st.entries, st.limits));
    OverLimitIsLeast(st.entries, st.limits, k);
  }

  /** What a trim leaves is exactly what the boundary does not hide. */
  lemma {:induction false} TrimLeavesTheNewer(steps: seq<Step>, i: nat)
    requires Run(steps).ensured && i < |Run(steps).history|
    ensures var after := Run(steps + [Trim]);
            && after.history == Run(steps).history
            && (Newer(after.history[i].id, after.lastTrimmedId) <==> Gone(after) <= i)
            && Visible(after) == after.entries
            && Keepable(after.entries, after.limits, after.now)
  {
    hide Keepable, Visible, Newer, BoundaryInv;
    EveryRunKeepsInv(steps);
    RunSnoc(steps, Trim);
    var st := Run(steps);
    var after := TrimStep(st);
    TrimKeepsInv(st);
    TrimSettles(st);
    assert after.entries[0..] == after.entries;
    BoundarySplits(after);
    VisibleIsMarked(after);
  }

  lemma TrimSettles(st: State)
    requires LogInv(st) && st.ensured
    ensures var after := TrimStep(st);
            Keepable(after.entries, after.limits, after.now) && OverLimit(after.entries, after.limits) == 0
  {
    var k := Expendable(st.entries, st.limits, st.now);
    ExpendableIsLeast(st.entries, st.limits, st.now, k);
    OverLimitTail(st.entries, st.limits, k);
  }

  lemma {:induction false} RunSnoc(steps: seq<Step>, step: Step)
    ensures Run(steps + [step]) == Next(Run(steps), step)
  {
    assert (steps + [step])[..|steps|] == steps;
  }

  // ----------------------------------------------------------------- no gap

  ghost predicate NotOlder(before: Option<StreamId>, after: Option<StreamId>) {
    before.Some? ==> after.Some? && AtMost(before.value, after.value)
  }

  lemma AppendExtends(st: State, batch: seq<Input>, ttl: Millis)
    requires Inv(st)
    ensures st.history <= AppendStep(st, batch, ttl).0.history
    ensures NotOlder(st.lastTrimmedId, AppendStep(st, batch, ttl).0.lastTrimmedId)
    ensures Gone(AppendStep(st, batch, ttl).0) == Gone(st)
  {
    AppendAllKeeps(st, batch, ttl);
  }

  lemma NextExtends(st: State, step: Step)
    requires Inv(st)
    ensures st.history <= Next(st, step).history
    ensures NotOlder(st.lastTrimmedId, Next(st, step).lastTrimmedId)
    ensures Next(st, step).now >= st.now
    ensures Gone(Next(st, step)) >= Gone(st)
  {
    if step.Append? {
      hide Inv;
      AppendExtends(st, step.batch, step.ttl);
      AppendKeepsClock(st, step.batch, step.ttl);
    } else {
      hide Inv;
    }
  }

  lemma AppendKeepsClock(st: State, batch: seq<Input>, ttl: Millis)
    requires Inv(st)
    ensures AppendStep(st, batch, ttl).0.now == st.now
  {
    AppendAllKeeps(st, batch, ttl);
  }

  lemma {:induction false} RunExtends(steps: seq<Step>, more: seq<Step>)
    ensures Run(steps).history <= Run(steps + more).history
    ensures NotOlder(Run(steps).lastTrimmedId, Run(steps + more).lastTrimmedId)
    ensures Run(steps + more).now >= Run(steps).now
    ensures Gone(Run(steps + more)) >= Gone(Run(steps))
  {
    hide Inv, Next;
    if more == [] {
      assert steps + more == steps;
    } else {
      var n := |more| - 1;
      RunExtends(steps, more[..n]);
      EveryRunKeepsInv(steps + more[..n]);
      assert steps + more == (steps + more[..n]) + [more[n]];
      RunSnoc(steps + more[..n], more[n]);
      NextExtends(Run(steps + more[..n]), more[n]);
    }
  }

  /**
    No unreported gap: whatever was ever appended and lies behind the boundary is still
    physically there, and the boundary only ever moves forward.
   */
  lemma {:induction false} NoUnreportedGap(steps: seq<Step>, more: seq<Step>, i: nat)
    requires i < |Run(steps).history|
    ensures var was, now := Run(steps), Run(steps + more);
            && NotOlder(was.lastTrimmedId, now.lastTrimmedId)
            && i < |now.history| && now.history[i] == was.history[i]
            && (Newer(was.history[i].id, now.lastTrimmedId) ==> was.history[i] in now.entries)
  {
    RunExtends(steps, more);
    EveryRunKeepsInv(steps + more);
    var now := Run(steps + more);
    BoundarySplits(now);
    if Newer(now.history[i].id, now.lastTrimmedId) {
      assert now.entries[i - Gone(now)] == now.history[i];
    }
  }

  /** The check `read` and `subscribe` make on the caller's cursor. */
  predicate CursorAccepted(afterCursor: Option<StreamId>, lastTrimmedId: Option<StreamId>) {
    afterCursor.None? || lastTrimmedId.None? || CompareStreamIds(afterCursor.value, lastTrimmedId.value) >= 0
  }

  ghost predicate NothingMissing(st: State, cursor: StreamId) {
    forall e | e in st.history && Less(cursor, e.id) :: e in st.entries && Newer(e.id, st.lastTrimmedId)
  }

  /**
    A cursor is rejected exactly when some record after it has left the retained range;
    an accepted cursor finds everything ever appended after it still in the stream.
   */
  lemma {:induction false} AcceptedExactlyWhenNothingIsMissing(steps: seq<Step>, cursor: StreamId)
    ensures CursorAccepted(Some(cursor), Run(steps).lastTrimmedId) <==> NothingMissing(Run(steps), cursor)
  {
    EveryRunKeepsInv(steps);
    var st := Run(steps);
    BoundarySplits(st);
    if CursorAccepted(Some(cursor), st.lastTrimmedId) {
      forall e | e in st.history && Less(cursor, e.id) ensures e in st.entries && Newer(e.id, st.lastTrimmedId) {
        var i :| 0 <= i < |st.history| && st.history[i] == e;
        assert Newer(e.id, st.lastTrimmedId);
        assert st.entries[i - Gone(st)] == e;
      }
    } else {
      var t := Gone(st) + OverLimit(st.entries, st.limits);
      var e := st.history[t - 1];
      assert e in st.history && Less(cursor, e.id) && !Newer(e.id, st.lastTrimmedId);
    }
  }

  // ----------------------------------------------------- subscription starts

  /** Where `subscribe` from "latest" starts: the newest entry, else the newest id ever stored. */
  function LatestStart(st: State): StreamId {
    var newest := XRevRange(st.entries, End, Start, 1);
    if newest != [] then newest[0].id
    else if st.lastId.Some? then st.lastId.value
    else ZERO
  }

  /** Where `subscribe` from "earliest" starts. */
  function EarliestStart(st: State): StreamId {
    if st.lastTrimmedId.Some? then st.lastTrimmedId.value else ZERO
  }

  /** "latest" lies before exactly the records appended later, even on a stream trimmed empty. */
  lemma {:induction false} LatestStartsAtTheEnd(steps: seq<Step>, more: seq<Step>, i: nat)
    requires i < |Run(steps + more).history|
    ensures Less(LatestStart(Run(steps)), Run(steps + more).history[i].id) <==> |Run(steps).history| <= i
    ensures CursorAccepted(Some(LatestStart(Run(steps))), Run(steps).lastTrimmedId)
  {
    hide Next, BoundaryInv, DedupeInv;
    EveryRunKeepsInv(steps);
    EveryRunKeepsInv(steps + more);
    RunExtends(steps, more);
    LatestIsNewest(Run(steps));
    HistoryAgainst(Run(steps + more).history, |Run(steps).history|, i);
  }

  lemma NewestIsLast(history: seq<Entry>, t: nat)
    requires Sorted(history) && 0 < t <= |history|
    ensures AtMost(history[t - 1].id, history[|history| - 1].id)
  {
  }

  lemma LatestIsNewest(st: State)
    requires LogInv(st) && BoundaryInv(st)
    ensures LatestStart(st) == if st.history == [] then ZERO else st.history[|st.history| - 1].id
    ensures CursorAccepted(Some(LatestStart(st)), st.lastTrimmedId)
  {
    hide OverLimit, Bytes, XRevRange, Sorted;
    XRevRangeNewest(st.entries);
    var t := Gone(st) + OverLimit(st.entries, st.limits);
    if t > 0 {
      NewestIsLast(st.history, t);
    }
  }

  /** The id of the k-th entry, or the zero cursor, lies before exactly the entries from k on. */
  lemma HistoryAgainst(history: seq<Entry>, k: nat, i: nat)
    requires Sorted(history) && k <= |history| && i < |history| && Less(ZERO, history[0].id)
    ensures Less(if k == 0 then ZERO else history[k - 1].id, history[i].id) <==> k <= i
  {
    if 0 < i { assert Less(history[0].id, history[i].id); }
    if 0 < k <= i { assert Less(history[k - 1].id, history[i].id); }
    if i < k - 1 { assert Less(history[i].id, history[k - 1].id); }
  }

  /** "earliest" lies before exactly the visible records. */
  lemma {:induction false} EarliestStartsAtTheBoundary(steps: seq<Step>, i: nat)
    requires i < |Run(steps).history|
    ensures var st := Run(steps);
            Less(EarliestStart(st), st.history[i].id) <==> st.history[i] in Visible(st)
  {
    hide Next, DedupeInv;
    EveryRunKeepsInv(steps);
    var st := Run(steps);
    var t := Gone(st) + OverLimit(st.entries, st.limits);
    HistoryAgainst(st.history, t, i);
    VisibleIsMarked(st);
    SliceHolds(st.history, t, i);
    assert st.entries[OverLimit(st.entries, st.limits)..] == st.history[t..];
  }

  lemma SliceHolds(s: seq<Entry>, k: nat, i: nat)
    requires Sorted(s) && k <= |s| && i < |s|
    ensures s[i] in s[k..] <==> k <= i
  {
    if k <= i {
      assert s[k..][i - k] == s[i];
    } else {
      forall j | 0 <= j < |s| - k ensures s[k..][j] != s[i] {
        assert Less(s[i].id, s[k + j].id);
      }
    }
  }

  // -------------------------------------------------------------- byte counts

  /** Byte accounting is exact after every step, so no clamp in a script ever acts. */
  lemma {:induction false} BytesAreExact(steps: seq<Step>)
    ensures Run(steps).retainedBytes == Bytes(Run(steps).entries)
  {
    EveryRunKeepsInv(steps);
  }
}
