/** The broker's bounded reads: `read` forward from a cursor, `tail` backward before one. */
module BrokerReads {
  import opened Wrappers
  import opened StreamLog
  import opened StreamTheorems
  import opened Records
  import opened Paging

  datatype BrokerPage = BrokerPage(records: seq<Record>, cursor: Option<StreamId>, hasMore: bool)

  datatype ReadError = CursorExpired | Undecodable

  /** One more than the limit: the extra record only tells whether there are more. */
  function Target(limit: Option<nat>): Option<nat> {
    if limit.None? then None else Some(limit.value + 1)
  }

  /** The page a list of scanned entries makes, in the direction of the scan. */
  function PageFrom(seen: seq<Entry>, cursor: Option<StreamId>, limit: Option<nat>, decode: Decoder, filters: Filters)
    : Result<BrokerPage, ReadError>
    requires limit.Some? ==> limit.value > 0
  {
    GatherBounds(seen, decode, filters, Target(limit));
    match Gather(seen, decode, filters, Target(limit))
    case Failed => Err(Undecodable)
    case Going(records) =>
      Ok(BrokerPage(records, LastSeen(seen, cursor), false))
    case Reached(records) =>
      var page := records[..limit.value];
      Ok(BrokerPage(page, Some(page[|page| - 1].cursor), true))
  }

  lemma {:induction false} GatherBounds(seen: seq<Entry>, decode: Decoder, filters: Filters, target: Option<nat>)
    ensures var progress := Gather(seen, decode, filters, target);
            && (progress.Reached? ==> target.Some? && |progress.records| >= target.value)
            && (progress.Going? && target.Some? && target.value > 0 ==> |progress.records| < target.value)
            && (progress.Reached? && target.Some? && target.value > 0 ==> |progress.records| == target.value)
  {
    if seen != [] {
      GatherBounds(seen[..|seen| - 1], decode, filters, target);
    }
  }

  /** Where a read starts: behind its cursor, or at the boundary. */
  function StartOf(afterCursor: Option<StreamId>, lastTrimmedId: Option<StreamId>): Lower {
    if afterCursor.Some? then After(afterCursor.value) else ReadStart(lastTrimmedId)
  }

  /** Why a loop of round trips stops at the n-th: enough gathered, a failure, or a short page. */
  ghost predicate Stops(history: seq<Entry>, views: Views, start: Lower, batch: nat, n: nat,
                        limit: Option<nat>, decode: Decoder, filters: Filters)
    requires n > 0
  {
    || !Gather(ScanAfter(history, views, start, batch, n).pulled, decode, filters, Target(limit)).Going?
    || |PageOf(history, views(n - 1), ScanAfter(history, views, start, batch, n - 1).cursor, batch)| < batch
  }

  /** It stops there, and not before. */
  ghost predicate Ended(history: seq<Entry>, views: Views, start: Lower, batch: nat, n: nat,
                        limit: Option<nat>, decode: Decoder, filters: Filters)
  {
    && n > 0 && Stops(history, views, start, batch, n, limit, decode, filters)
    && forall k: nat | 0 < k < n :: !Stops(history, views, start, batch, k, limit, decode, filters)
  }

  // ------------------------------------------------------------------- read

  /** How `read` answers: the empty and the expired case, else the page of what its round trips showed. */
  ghost predicate ReadAnswers(history: seq<Entry>, views: Views, ensured: bool, lastTrimmedId: Option<StreamId>,
                              afterCursor: Option<StreamId>, limit: Option<int>, filters: Filters, decode: Decoder,
                              batch: nat, page: Result<BrokerPage, ReadError>, rounds: nat)
  {
    if (limit.Some? && limit.value <= 0) || !ensured then page == Ok(BrokerPage([], afterCursor, false))
    else if !CursorAccepted(afterCursor, lastTrimmedId) then page == Err(CursorExpired)
    else
      var start, bound := StartOf(afterCursor, lastTrimmedId), Bound(limit);
      && Ended(history, views, start, batch, rounds, bound, decode, filters)
      && page == PageFrom(ScanAfter(history, views, start, batch, rounds).pulled, afterCursor, bound, decode, filters)
  }

  /** The caller's limit, once it is known to be positive. */
  function Bound(limit: Option<int>): Option<nat>
    requires limit.Some? ==> limit.value > 0
  {
    if limit.None? then None else Some(limit.value)
  }

  /**
    `read`, while other processes append and trim between its round trips. `rounds` says
    how many round trips it made.
   */
  method Read(history: seq<Entry>, views: Views, ensured: bool, lastTrimmedId: Option<StreamId>,
              afterCursor: Option<StreamId>, limit: Option<int>, filters: Filters, decode: Decoder, readBatchSize: nat)
    returns (page: Result<BrokerPage, ReadError>, ghost rounds: nat)
    requires Sorted(history) && Moving(history, views) && readBatchSize > 0
    ensures (limit.Some? && limit.value <= 0) || !ensured ==> page == Ok(BrokerPage([], afterCursor, false))
    ensures (limit.None? || limit.value > 0) && ensured && !CursorAccepted(afterCursor, lastTrimmedId) ==>
              page == Err(CursorExpired)
    ensures ReadAnswers(history, views, ensured, lastTrimmedId, afterCursor, limit, filters, decode, readBatchSize,
                        page, rounds)
  {
    rounds := 0;
    if limit.Some? && limit.value <= 0 {
      return Ok(BrokerPage([], afterCursor, false)), 0;
    }
    if !ensured {
      return Ok(BrokerPage([], afterCursor, false)), 0;
    }
    if !CursorAccepted(afterCursor, lastTrimmedId) {
      return Err(CursorExpired), 0;
    }
    var bound: Option<nat> := if limit.None? then None else Some(limit.value);
    page, rounds := ReadFrom(history, views, StartOf(afterCursor, lastTrimmedId), afterCursor, bound, filters, decode,
                             readBatchSize);
  }

  method ReadFrom(history: seq<Entry>, views: Views, from: Lower, afterCursor: Option<StreamId>, limit: Option<nat>,
                  filters: Filters, decode: Decoder, readBatchSize: nat)
    returns (page: Result<BrokerPage, ReadError>, ghost rounds: nat)
    requires Sorted(history) && Moving(history, views) && readBatchSize > 0
    requires limit.Some? ==> limit.value > 0
    ensures Ended(history, views, from, readBatchSize, rounds, limit, decode, filters)
    ensures page == PageFrom(ScanAfter(history, views, from, readBatchSize, rounds).pulled,
                             afterCursor, limit, decode, filters)
  {
    hide Moving, Sorted, Skip, PageOf, Gather, ScanAfter, Stops;
    rounds := 0;
    var records: seq<Record> := [];
    var start, cursor, round := from, afterCursor, 0;
    ghost var scan := Scan(start, []);
    ScanMore(history, views, from, readBatchSize, 0);
    GatherNothing(decode, filters, Target(limit));
    while true
      invariant scan == ScanAfter(history, views, from, readBatchSize, round)
      invariant scan.cursor == start && round == rounds
      invariant forall k: nat | 0 < k <= round :: !Stops(history, views, from, readBatchSize, k, limit, decode, filters)
      invariant Gather(scan.pulled, decode, filters, Target(limit)) == Going(records)
      invariant cursor == LastSeen(scan.pulled, afterCursor)
      decreases |history| - Skip(history, start)
    {
      var entries := PageOf(history, views(round), start, readBatchSize);
      RoundTripAdvances(history, views, round, start, readBatchSize);
      StopTells(history, views, from, readBatchSize, round, limit, decode, filters);
      rounds := rounds + 1;
      ghost var before := scan.pulled;
      scan := ScanStep(scan, entries);
      if |entries| == 0 {
        assert before + entries == before;
        break;
      }
      var progress: Progress;
      progress, cursor := GatherPage(before, entries, records, cursor, limit, filters, decode);
      if progress.Failed? {
        return Err(Undecodable), rounds;
      }
      records := progress.records;
      if progress.Reached? || |entries| < readBatchSize {
        break;
      }
      start := After(entries[|entries| - 1].id);
      round := round + 1;
    }
    GatherBounds(scan.pulled, decode, filters, Target(limit));
    var hasMore := limit.Some? && |records| > limit.value;
    var pageRecords := if hasMore then records[..limit.value] else records;
    page := Ok(BrokerPage(pageRecords, if hasMore then Some(pageRecords[|pageRecords| - 1].cursor) else cursor, hasMore));
  }

  lemma StopTells(history: seq<Entry>, views: Views, start: Lower, batch: nat, n: nat, limit: Option<nat>,
                  decode: Decoder, filters: Filters)
    ensures var scan := ScanAfter(history, views, start, batch, n);
            var page := PageOf(history, views(n), scan.cursor, batch);
            && ScanAfter(history, views, start, batch, n + 1) == ScanStep(scan, page)
            && (Stops(history, views, start, batch, n + 1, limit, decode, filters) <==>
                  !Gather(ScanStep(scan, page).pulled, decode, filters, Target(limit)).Going? || |page| < batch)
  {
    hide Gather, PageOf;
  }

  function LastSeen(seen: seq<Entry>, cursor: Option<StreamId>): Option<StreamId> {
    if seen == [] then cursor else Some(seen[|seen| - 1].id)
  }

  /** The loop over one page of entries, shared by `read` and `tail`. */
  method GatherPage(ghost before: seq<Entry>, entries: seq<Entry>, records: seq<Record>, cursor: Option<StreamId>,
                    limit: Option<nat>, filters: Filters, decode: Decoder)
    returns (progress: Progress, cursor': Option<StreamId>)
    requires Gather(before, decode, filters, Target(limit)) == Going(records)
    ensures progress == Gather(before + entries, decode, filters, Target(limit))
    ensures progress.Going? ==> cursor' == LastSeen(entries, cursor)
  {
    hide Gather, Matches;
    var target := Target(limit);
    var found := records;
    cursor' := cursor;
    assert before + entries[..0] == before;
    for index := 0 to |entries|
      invariant Gather(before + entries[..index], decode, filters, target) == Going(found)
      invariant cursor' == LastSeen(entries[..index], cursor)
    {
      var entry := entries[index];
      GatherNext(before, entries, index, decode, filters, target);
      cursor' := Some(entry.id);
      var content := decode(entry.body);
      if content.None? {
        return Failed, cursor';
      }
      if !MatchesFilters(content.value, filters) {
        assert found + [] == found;
        continue;
      }
      found := found + [Record(entry.id, content.value)];
      if target.Some? && |found| >= target.value {
        return Reached(found), cursor';
      }
    }
    assert entries[..|entries|] == entries;
    progress := Going(found);
  }

  lemma {:induction false} GatherNothing(decode: Decoder, filters: Filters, target: Option<nat>)
    ensures Gather([], decode, filters, target) == Going([])
  {
  }

  /** A round trip that returned something moved the cursor. */
  lemma {:induction false} RoundTripAdvances(history: seq<Entry>, views: Views, n: nat, start: Lower, batch: nat)
    requires Sorted(history) && Moving(history, views)
    ensures var page := PageOf(history, views(n), start, batch);
            page != [] ==> Skip(history, start) < Skip(history, Resume(start, page)) <= |history|
  {
    RoundTrip(history, views(n), start, batch);
  }

  /** One more entry of the page, and what it settles for the whole of it. */
  lemma {:induction false} GatherNext(before: seq<Entry>, page: seq<Entry>, i: nat, decode: Decoder, filters: Filters,
                                      target: Option<nat>)
    requires i < |page| && Gather(before + page[..i], decode, filters, target).Going?
    ensures var records := Gather(before + page[..i], decode, filters, target).records;
            var next := GatherOne(records, page[i], decode, filters, target);
            && Gather(before + page[..i + 1], decode, filters, target) == next
            && (!next.Going? ==> Gather(before + page, decode, filters, target) == next)
  {
    hide GatherOne;
    var seen := before + page[..i + 1];
    assert seen[..|seen| - 1] == before + page[..i] && seen[|seen| - 1] == page[i];
    if !Gather(seen, decode, filters, target).Going? {
      assert before + page == seen + page[i + 1..];
      GatherStops(seen, page[i + 1..], decode, filters, target);
    }
  }

  /** Once the gathering has stopped, what else the stream holds does not change the page. */
  lemma {:induction false} PageStops(seen: seq<Entry>, more: seq<Entry>, cursor: Option<StreamId>, limit: Option<nat>,
                                     decode: Decoder, filters: Filters)
    requires limit.Some? ==> limit.value > 0
    requires !Gather(seen, decode, filters, Target(limit)).Going?
    ensures PageFrom(seen + more, cursor, limit, decode, filters) == PageFrom(seen, cursor, limit, decode, filters)
  {
    hide Gather;
    GatherStops(seen, more, decode, filters, Target(limit));
  }

  // ------------------------------------------------------------------- tail

  /** The check `tail` makes on the caller's cursor. */
  predicate TailCursorAccepted(beforeCursor: Option<StreamId>, lastTrimmedId: Option<StreamId>) {
    beforeCursor.None? || lastTrimmedId.None? || CompareStreamIds(beforeCursor.value, lastTrimmedId.value) > 0
  }

  function EndOf(beforeCursor: Option<StreamId>): Upper {
    if beforeCursor.Some? then Before(beforeCursor.value) else End
  }

  /** The entries a tail may scan, oldest first: behind the boundary and before the cursor. */
  function Span(s: seq<Entry>, lo: Lower, hi: Upper): seq<Entry> {
    if Skip(s, lo) <= Reach(s, hi) then s[Skip(s, lo)..Reach(s, hi)] else []
  }

  /** A page gathered newest first, turned around. */
  function Turned(page: BrokerPage): BrokerPage {
    page.(records := Reverse(page.records))
  }

  function TailPageFrom(seen: seq<Entry>, cursor: Option<StreamId>, limit: Option<nat>, decode: Decoder,
                        filters: Filters)
    : Result<BrokerPage, ReadError>
    requires limit.Some? ==> limit.value > 0
  {
    match PageFrom(seen, cursor, limit, decode, filters)
    case Err(e) => Err(e)
    case Ok(page) => Ok(Turned(page))
  }

  /** Why a backward loop of round trips stops at the n-th. */
  ghost predicate TailStops(history: seq<Entry>, views: Views, from: Upper, end: Lower, batch: nat, n: nat,
                            limit: Option<nat>, decode: Decoder, filters: Filters)
    requires n > 0
  {
    || !Gather(BackAfter(history, views, from, end, batch, n).pulled, decode, filters, Target(limit)).Going?
    || |BackPage(history, views(n - 1), BackAfter(history, views, from, end, batch, n - 1).cursor, end, batch)| < batch
  }

  /** It stops there, and not before. */
  ghost predicate TailEnded(history: seq<Entry>, views: Views, from: Upper, end: Lower, batch: nat, n: nat,
                            limit: Option<nat>, decode: Decoder, filters: Filters)
  {
    && n > 0 && TailStops(history, views, from, end, batch, n, limit, decode, filters)
    && forall k: nat | 0 < k < n :: !TailStops(history, views, from, end, batch, k, limit, decode, filters)
  }

  /** How `tail` answers: the empty and the expired case, else the page of what its round trips showed. */
  ghost predicate TailAnswers(history: seq<Entry>, views: Views, ensured: bool, lastTrimmedId: Option<StreamId>,
                              beforeCursor: Option<StreamId>, limit: Option<int>, filters: Filters, decode: Decoder,
                              batch: nat, page: Result<BrokerPage, ReadError>, rounds: nat)
  {
    if (limit.Some? && limit.value <= 0) || !ensured then page == Ok(BrokerPage([], beforeCursor, false))
    else if !TailCursorAccepted(beforeCursor, lastTrimmedId) then page == Err(CursorExpired)
    else
      var from, end, bound := EndOf(beforeCursor), ReadStart(lastTrimmedId), Bound(limit);
      && TailEnded(history, views, from, end, batch, rounds, bound, decode, filters)
      && page == TailPageFrom(BackAfter(history, views, from, end, batch, rounds).pulled, beforeCursor, bound, decode,
                              filters)
  }

  /**
    `tail`, while other processes append and trim between its round trips. `rounds` says
    how many round trips it made.
   */
  method Tail(history: seq<Entry>, views: Views, ensured: bool, lastTrimmedId: Option<StreamId>,
              beforeCursor: Option<StreamId>, limit: Option<int>, filters: Filters, decode: Decoder, readBatchSize: nat)
    returns (page: Result<BrokerPage, ReadError>, ghost rounds: nat)
    requires Sorted(history) && Moving(history, views) && readBatchSize > 0
    ensures (limit.Some? && limit.value <= 0) || !ensured ==> page == Ok(BrokerPage([], beforeCursor, false))
    ensures (limit.None? || limit.value > 0) && ensured && !TailCursorAccepted(beforeCursor, lastTrimmedId) ==>
              page == Err(CursorExpired)
    ensures TailAnswers(history, views, ensured, lastTrimmedId, beforeCursor, limit, filters, decode, readBatchSize,
                        page, rounds)
  {
    rounds := 0;
    if limit.Some? && limit.value <= 0 {
      return Ok(BrokerPage([], beforeCursor, false)), 0;
    }
    if !ensured {
      return Ok(BrokerPage([], beforeCursor, false)), 0;
    }
    if !TailCursorAccepted(beforeCursor, lastTrimmedId) {
      return Err(CursorExpired), 0;
    }
    var bound: Option<nat> := if limit.None? then None else Some(limit.value);
    page, rounds := TailFrom(history, views, EndOf(beforeCursor), ReadStart(lastTrimmedId), beforeCursor, bound, filters,
                             decode, readBatchSize);
  }

  method TailFrom(history: seq<Entry>, views: Views, from: Upper, end: Lower, beforeCursor: Option<StreamId>,
                  limit: Option<nat>, filters: Filters, decode: Decoder, readBatchSize: nat)
    returns (page: Result<BrokerPage, ReadError>, ghost rounds: nat)
    requires Sorted(history) && Moving(history, views) && readBatchSize > 0
    requires limit.Some? ==> limit.value > 0
    ensures TailEnded(history, views, from, end, readBatchSize, rounds, limit, decode, filters)
    ensures page == TailPageFrom(BackAfter(history, views, from, end, readBatchSize, rounds).pulled,
                                 beforeCursor, limit, decode, filters)
  {
    hide Moving, Sorted, BackPage, BackAfter, TailStops, Top, Gather, Reverse, Downward, Skip, Reach;
    rounds := 0;
    var reversed: seq<Record> := [];
    var start, cursor, round := from, beforeCursor, 0;
    ghost var scan := BackScan(start, []);
    BackNothing(history, views, from, end, readBatchSize);
    ghost var r: nat := BackScanIsSlice(history, views, from, end, readBatchSize, 0);
    GatherNothing(decode, filters, Target(limit));
    while true
      invariant scan == BackAfter(history, views, from, end, readBatchSize, round)
      invariant scan.cursor == start && round == rounds
      invariant forall k: nat | 0 < k <= round ::
                  !TailStops(history, views, from, end, readBatchSize, k, limit, decode, filters)
      invariant round > 0 ==> BackAfter(history, views, from, end, readBatchSize, 1).pulled != []
      invariant Downward(history, from, Top(history, views, from), r, scan)
      invariant r == Top(history, views, from) ==> round == 0
      invariant Gather(scan.pulled, decode, filters, Target(limit)) == Going(reversed)
      invariant cursor == LastSeen(scan.pulled, beforeCursor)
      decreases r
    {
      var entries := BackPage(history, views(round), start, end, readBatchSize);
      BackTripDescends(history, views, from, end, readBatchSize, round, r);
      TailStopTells(history, views, from, end, readBatchSize, round, limit, decode, filters);
      FirstNotEmpty(history, views, from, end, readBatchSize, limit, decode, filters);
      rounds := rounds + 1;
      ghost var before := scan.pulled;
      scan := BackStep(scan, entries);
      if |entries| == 0 {
        assert before + entries == before;
        break;
      }
      var progress: Progress;
      progress, cursor := GatherPage(before, entries, reversed, cursor, limit, filters, decode);
      if progress.Failed? {
        return Err(Undecodable), rounds;
      }
      reversed := progress.records;
      if progress.Reached? || |entries| < readBatchSize {
        break;
      }
      r := r - |entries|;
      start := Before(entries[|entries| - 1].id);
      round := round + 1;
    }
    GatherBounds(scan.pulled, decode, filters, Target(limit));
    var hasMore := limit.Some? && |reversed| > limit.value;
    var newest := if hasMore then reversed[..limit.value] else reversed;
    var pageRecords := Reverse(newest);
    if hasMore {
      ReverseAt(newest, 0);
    }
    page := Ok(BrokerPage(pageRecords, if hasMore then Some(pageRecords[0].cursor) else cursor, hasMore));
  }

  lemma TailStopTells(history: seq<Entry>, views: Views, from: Upper, end: Lower, batch: nat, n: nat,
                      limit: Option<nat>, decode: Decoder, filters: Filters)
    ensures var scan := BackAfter(history, views, from, end, batch, n);
            var page := BackPage(history, views(n), scan.cursor, end, batch);
            && BackAfter(history, views, from, end, batch, n + 1) == BackStep(scan, page)
            && (TailStops(history, views, from, end, batch, n + 1, limit, decode, filters) <==>
                  !Gather(BackStep(scan, page).pulled, decode, filters, Target(limit)).Going? || |page| < batch)
  {
    hide Gather, BackPage;
  }

  /** A loop that goes on after its first round trip has seen something. */
  lemma FirstNotEmpty(history: seq<Entry>, views: Views, from: Upper, end: Lower, batch: nat, limit: Option<nat>,
                      decode: Decoder, filters: Filters)
    requires batch > 0
    ensures !TailStops(history, views, from, end, batch, 1, limit, decode, filters) ==>
              BackAfter(history, views, from, end, batch, 1).pulled != []
  {
    hide Gather, BackPage;
    TailStopTells(history, views, from, end, batch, 0, limit, decode, filters);
  }

  lemma BackNothing(history: seq<Entry>, views: Views, from: Upper, end: Lower, batch: nat)
    ensures BackAfter(history, views, from, end, batch, 0) == BackScan(from, [])
  {
  }

  /** A backward round trip that returned something moved the scan further down. */
  lemma BackTripDescends(history: seq<Entry>, views: Views, from: Upper, end: Lower, batch: nat, n: nat, r: nat)
    requires Sorted(history) && Moving(history, views) && batch > 0
    requires n > 0 ==> BackAfter(history, views, from, end, batch, 1).pulled != []
    requires Downward(history, from, Top(history, views, from), r, BackAfter(history, views, from, end, batch, n))
    requires r == Top(history, views, from) ==> n == 0
    ensures var scan := BackAfter(history, views, from, end, batch, n);
            var page := BackPage(history, views(n), scan.cursor, end, batch);
            && |page| <= r <= Top(history, views, from)
            && Downward(history, from, Top(history, views, from), r - |page|, BackStep(scan, page))
            && BackAfter(history, views, from, end, batch, n + 1) == BackStep(scan, page)
            && (|page| < batch ==> r - |page| <= Floor(history, views(n), end))
  {
    hide Sorted, Skip, Reach, Reverse, BackPage;
    var scan := BackAfter(history, views, from, end, batch, n);
    DownwardStep(history, views(n), from, Top(history, views, from), r, scan, end, batch);
  }
}
