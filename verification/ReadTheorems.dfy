/** What a caller of `read` may rely on: on a still stream, in a chain of pages, and under interference. */
module ReadTheorems {
  import opened Wrappers
  import opened StreamLog
  import opened StreamState
  import opened StreamInvariant
  import opened StreamTheorems
  import opened Records
  import opened Paging
  import opened BrokerReads

  // ------------------------------------------------------- windows of a run

  /** The part of the history a state holds. */
  function WindowOf(st: State): Window
    requires 0 <= Gone(st)
  {
    Window(Gone(st), |st.history|)
  }

  /**
    Whatever other clients do between two moments of a run, what the stream holds is a
    window of the final history that only moves forward; what the window has passed was
    reported by the boundary.
   */
  lemma {:induction false} RunsMoveWindows(early: seq<Step>, between: seq<Step>, late: seq<Step>, i: nat)
    ensures var st, mid, end := Run(early), Run(early + between), Run(early + between + late);
            && 0 <= Gone(st) && 0 <= Gone(mid)
            && WindowOf(st).lo <= WindowOf(mid).lo && WindowOf(st).hi <= WindowOf(mid).hi
            && WindowOf(mid).Within(end.history) && Held(end.history, WindowOf(mid)) == mid.entries
            && (i < WindowOf(mid).lo ==> !Newer(end.history[i].id, mid.lastTrimmedId))
  {
    hide Next, BoundaryInv, DedupeInv;
    EveryRunKeepsInv(early);
    EveryRunKeepsInv(early + between);
    RunExtends(early, between);
    RunExtends(early + between, late);
    BoundarySplits(Run(early + between));
    var mid, end := Run(early + between), Run(early + between + late);
    SliceOfPrefix(end.history, mid.history, Gone(mid));
  }

  lemma SliceOfPrefix(whole: seq<Entry>, part: seq<Entry>, k: nat)
    requires part <= whole && k <= |part|
    ensures whole[k..|part|] == part[k..]
  {
  }

  // --------------------------------------------------------- a still stream

  /** Everything behind a cursor. */
  function Rest(s: seq<Entry>, start: Lower): seq<Entry> {
    s[Skip(s, start)..]
  }

  /** On a still stream a read is the page of everything behind its cursor, whatever the batch size. */
  lemma {:induction false} ReadOfStillStream(history: seq<Entry>, views: Views, start: Lower, batch: nat, n: nat,
                                             cursor: Option<StreamId>, limit: Option<nat>, decode: Decoder,
                                             filters: Filters)
    requires Sorted(history) && Still(views) && batch > 0 && (limit.Some? ==> limit.value > 0) && n > 0
    requires Ended(history, views, start, batch, n, limit, decode, filters)
    ensures PageFrom(ScanAfter(history, views, start, batch, n).pulled, cursor, limit, decode, filters)
         == PageFrom(Rest(Held(history, views(0)), start), cursor, limit, decode, filters)
  {
    hide Sorted, Gather, PageFrom, Still, Contiguous, XRange, Ended, ScanAfter;
    var s, before := Held(history, views(0)), ScanAfter(history, views, start, batch, n - 1);
    ContentSorted(history, views(0));
    ScanWhenStill(history, views, start, batch, n - 1);
    LastRoundTrip(history, views, start, batch, n, limit, decode, filters);
    LastRoundTripSettles(s, start, before, batch, cursor, limit, decode, filters);
  }

  lemma {:induction false} LastRoundTrip(history: seq<Entry>, views: Views, start: Lower, batch: nat, n: nat,
                                         limit: Option<nat>, decode: Decoder, filters: Filters)
    requires Still(views) && Ended(history, views, start, batch, n, limit, decode, filters)
    ensures var before := ScanAfter(history, views, start, batch, n - 1);
            var page := XRange(Held(history, views(0)), before.cursor, End, batch);
            && ScanAfter(history, views, start, batch, n) == ScanStep(before, page)
            && (Gather(ScanStep(before, page).pulled, decode, filters, Target(limit)).Going? ==> |page| < batch)
  {
    hide Gather, XRange;
    assert views(n - 1) == views(0);
  }

  /** If the scan goes on after the last round trip, that round trip returned a short page: the end. */
  lemma {:induction false} LastRoundTripSettles(s: seq<Entry>, start: Lower, before: Scan, batch: nat,
                                                cursor: Option<StreamId>, limit: Option<nat>, decode: Decoder,
                                                filters: Filters)
    requires Sorted(s) && Contiguous(s, start, before) && (limit.Some? ==> limit.value > 0)
    requires var page := XRange(s, before.cursor, End, batch);
             Gather(ScanStep(before, page).pulled, decode, filters, Target(limit)).Going? ==> |page| < batch
    ensures PageFrom(ScanStep(before, XRange(s, before.cursor, End, batch)).pulled, cursor, limit, decode, filters)
         == PageFrom(Rest(s, start), cursor, limit, decode, filters)
  {
    hide Sorted, Gather, PageFrom, Contiguous, XRange;
    ContiguousStep(s, start, before, batch);
    ShortPageEnds(s, start, before, batch);
    var scan := ScanStep(before, XRange(s, before.cursor, End, batch));
    PulledIsPrefix(s, start, scan);
    if !Gather(scan.pulled, decode, filters, Target(limit)).Going? {
      PageStops(scan.pulled, Rest(s, start)[|scan.pulled|..], cursor, limit, decode, filters);
    }
  }

  lemma ShortPageEnds(s: seq<Entry>, start: Lower, before: Scan, batch: nat)
    requires Sorted(s) && Contiguous(s, start, before)
    ensures var page := XRange(s, before.cursor, End, batch);
            |page| < batch ==> ScanStep(before, page).pulled == Rest(s, start)
  {
    hide Sorted, Skip, XRange;
    ContiguousStep(s, start, before, batch);
  }

  lemma PulledIsPrefix(s: seq<Entry>, start: Lower, scan: Scan)
    requires Contiguous(s, start, scan)
    ensures |scan.pulled| <= |Rest(s, start)|
    ensures Rest(s, start) == scan.pulled + Rest(s, start)[|scan.pulled|..]
  {
  }

  /**
    The page of entries that all decode: the first `limit` matches, `hasMore` exactly when
    there are more, and a cursor at the last record of a cut page, else at the last entry.
   */
  lemma {:induction false} PageOfDecodable(seen: seq<Entry>, cursor: Option<StreamId>, limit: Option<nat>,
                                           decode: Decoder, filters: Filters)
    requires Decodable(seen, decode) && (limit.Some? ==> limit.value > 0)
    ensures var page, all := PageFrom(seen, cursor, limit, decode, filters), Matches(seen, decode, filters);
            && page.Ok?
            && (page.value.hasMore <==> limit.Some? && |all| > limit.value)
            && page.value.records == (if page.value.hasMore then all[..limit.value] else all)
            && page.value.cursor == if page.value.hasMore then Some(all[limit.value - 1].cursor) else LastSeen(seen, cursor)
  {
    hide Gather, Matches;
    GatherIsMatches(seen, decode, filters, Target(limit));
    if limit.Some? && |Matches(seen, decode, filters)| > limit.value {
      assert Matches(seen, decode, filters)[..limit.value + 1][..limit.value] == Matches(seen, decode, filters)[..limit.value];
    }
  }

  // -------------------------------------------------------- a chain of pages

  lemma RestDecodable(s: seq<Entry>, start: Lower, decode: Decoder)
    requires Decodable(s, decode)
    ensures Decodable(Rest(s, start), decode)
  {
  }

  /** The cursor of a cut page cuts the stream right behind the page's last record. */
  lemma CutCursor(s: seq<Entry>, start: Lower, limit: nat, decode: Decoder, filters: Filters)
    requires Sorted(s) && 0 < limit < |Matches(Rest(s, start), decode, filters)|
    ensures var all := Matches(Rest(s, start), decode, filters);
            && Skip(s, start) < Skip(s, After(all[limit - 1].cursor)) <= |s|
            && Matches(Rest(s, After(all[limit - 1].cursor)), decode, filters) == all[limit..]
  {
    hide Sorted, Skip, Matches, MatchOf;
    var rest, p := Rest(s, start), Skip(s, start);
    var i := MatchAt(rest, limit - 1, decode, filters);
    MatchesAround(rest, i, decode, filters);
    SkipAt(s, p + i + 1);
    SliceOfSlice(s, p, |s|, i + 1, |rest|);
    assert s[p..|s|] == rest;
  }

  /** What a caller has not read: behind the cursor, or without one behind the boundary. */
  predicate Unread(id: StreamId, afterCursor: Option<StreamId>, lastTrimmedId: Option<StreamId>) {
    if afterCursor.Some? then Less(afterCursor.value, id) else Newer(id, lastTrimmedId)
  }

  function UnreadOf(s: seq<Entry>, afterCursor: Option<StreamId>, lastTrimmedId: Option<StreamId>): seq<Entry> {
    if s == [] then []
    else
      var n := |s| - 1;
      UnreadOf(s[..n], afterCursor, lastTrimmedId) + if Unread(s[n].id, afterCursor, lastTrimmedId) then [s[n]] else []
  }

  /** A read starts in front of exactly what is unread. */
  lemma StartsAtTheUnread(id: StreamId, afterCursor: Option<StreamId>, lastTrimmedId: Option<StreamId>)
    ensures Above(id, StartOf(afterCursor, lastTrimmedId)) <==> Unread(id, afterCursor, lastTrimmedId)
  {
  }

  lemma {:induction false} RestIsUnread(s: seq<Entry>, afterCursor: Option<StreamId>, lastTrimmedId: Option<StreamId>)
    requires Sorted(s)
    ensures Rest(s, StartOf(afterCursor, lastTrimmedId)) == UnreadOf(s, afterCursor, lastTrimmedId)
  {
    hide Sorted, Skip, Above, StartOf;
    var start := StartOf(afterCursor, lastTrimmedId);
    SkipCuts(s, start);
    forall i | 0 <= i < |s| ensures Unread(s[i].id, afterCursor, lastTrimmedId) <==> Skip(s, start) <= i {
      StartsAtTheUnread(s[i].id, afterCursor, lastTrimmedId);
    }
    UnreadFrom(s, Skip(s, start), |s|, afterCursor, lastTrimmedId);
    assert s[..|s|] == s;
  }

  lemma {:induction false} UnreadFrom(s: seq<Entry>, p: nat, m: nat, afterCursor: Option<StreamId>,
                                      lastTrimmedId: Option<StreamId>)
    requires p <= |s| && m <= |s|
    requires forall i | 0 <= i < |s| :: Unread(s[i].id, afterCursor, lastTrimmedId) <==> p <= i
    ensures UnreadOf(s[..m], afterCursor, lastTrimmedId) == if p <= m then s[p..m] else []
  {
    hide Unread;
    if m > 0 {
      UnreadFrom(s, p, m - 1, afterCursor, lastTrimmedId);
      assert s[..m][..m - 1] == s[..m - 1] && s[..m][m - 1] == s[m - 1];
    }
  }

  /**
    What `read` returns lies behind its cursor, or without one behind the boundary, whatever
    other processes do between its round trips.
   */
  lemma {:induction false} ReadReturnsTheUnread(history: seq<Entry>, views: Views, ensured: bool,
                                                lastTrimmedId: Option<StreamId>, afterCursor: Option<StreamId>,
                                                limit: Option<int>, filters: Filters, decode: Decoder, batch: nat,
                                                page: Result<BrokerPage, ReadError>, rounds: nat)
    requires Sorted(history) && Moving(history, views)
    requires ReadAnswers(history, views, ensured, lastTrimmedId, afterCursor, limit, filters, decode, batch, page, rounds)
    ensures page.Ok? ==> forall r | r in page.value.records ::
              && (afterCursor.Some? ==> Less(afterCursor.value, r.cursor)) && Newer(r.cursor, lastTrimmedId)
  {
    hide Moving, ScanAfter, PageFrom, Matches, Skip, Sorted, StartOf, Ended, Above;
    if page.Ok? && ensured && (limit.Some? ==> limit.value > 0) {
      var start := StartOf(afterCursor, lastTrimmedId);
      var seen := ScanAfter(history, views, start, batch, rounds).pulled;
      ScanIsSound(history, views, start, batch, rounds);
      SkipCuts(history, start);
      PageRecords(seen, afterCursor, Bound(limit), decode, filters);
      forall r | r in page.value.records
        ensures (afterCursor.Some? ==> Less(afterCursor.value, r.cursor)) && Newer(r.cursor, lastTrimmedId)
      {
        SourceOf(seen, r, decode, filters);
        StartsAtTheUnread(r.cursor, afterCursor, lastTrimmedId);
      }
    }
  }

  /**
    On a still stream `read` returns, of exactly the entries behind its cursor, or without
    one behind the boundary, the first `limit` matches.
   */
  lemma {:induction false} ReadIsFirstUnread(history: seq<Entry>, views: Views, lastTrimmedId: Option<StreamId>,
                                             afterCursor: Option<StreamId>, limit: Option<int>, filters: Filters,
                                             decode: Decoder, batch: nat, page: Result<BrokerPage, ReadError>,
                                             rounds: nat)
    requires Sorted(history) && Still(views) && batch > 0 && (limit.Some? ==> limit.value > 0)
    requires ReadAnswers(history, views, true, lastTrimmedId, afterCursor, limit, filters, decode, batch, page, rounds)
    requires CursorAccepted(afterCursor, lastTrimmedId) && Decodable(Held(history, views(0)), decode)
    ensures var unread := UnreadOf(Held(history, views(0)), afterCursor, lastTrimmedId);
            var all := Matches(unread, decode, filters);
            && page.Ok?
            && (page.value.hasMore <==> limit.Some? && |all| > limit.value)
            && page.value.records == (if page.value.hasMore then all[..limit.value] else all)
            && page.value.cursor == if page.value.hasMore then Some(all[limit.value - 1].cursor)
                                    else if unread == [] then afterCursor else Some(unread[|unread| - 1].id)
  {
    hide ScanAfter, PageFrom, Matches, Skip, Sorted, StartOf, Ended, Held;
    var s, start := Held(history, views(0)), StartOf(afterCursor, lastTrimmedId);
    ContentSorted(history, views(0));
    RestIsUnread(s, afterCursor, lastTrimmedId);
    RestDecodable(s, start, decode);
    assert rounds > 0 by {
      EndedLater(history, views, start, batch, rounds, Bound(limit), decode, filters);
    }
    ReadOfStillStream(history, views, start, batch, rounds, afterCursor, Bound(limit), decode, filters);
    PageOfDecodable(Rest(s, start), afterCursor, Bound(limit), decode, filters);
  }

  lemma EndedLater(history: seq<Entry>, views: Views, start: Lower, batch: nat, n: nat, limit: Option<nat>,
                   decode: Decoder, filters: Filters)
    requires Ended(history, views, start, batch, n, limit, decode, filters)
    ensures n > 0
  {
  }

  /** Reading page after page, each from the last one's cursor, until one says there are no more. */
  ghost function ReadChain(s: seq<Entry>, afterCursor: Option<StreamId>, lastTrimmedId: Option<StreamId>, limit: nat,
                           decode: Decoder, filters: Filters): seq<Record>
    requires Sorted(s) && Decodable(s, decode) && limit > 0
    decreases |s| - Skip(s, StartOf(afterCursor, lastTrimmedId))
  {
    var start := StartOf(afterCursor, lastTrimmedId);
    RestDecodable(s, start, decode);
    PageOfDecodable(Rest(s, start), afterCursor, Some(limit), decode, filters);
    var page := PageFrom(Rest(s, start), afterCursor, Some(limit), decode, filters).value;
    if page.hasMore then
      CutCursor(s, start, limit, decode, filters);
      page.records + ReadChain(s, page.cursor, lastTrimmedId, limit, decode, filters)
    else page.records
  }

  /** A chain of reads returns every matching record behind the cursor, or the boundary, once and in order. */
  lemma {:induction false} ReadChainIsComplete(s: seq<Entry>, afterCursor: Option<StreamId>,
                                               lastTrimmedId: Option<StreamId>, limit: nat, decode: Decoder,
                                               filters: Filters)
    requires Sorted(s) && Decodable(s, decode) && limit > 0
    ensures ReadChain(s, afterCursor, lastTrimmedId, limit, decode, filters)
         == Matches(UnreadOf(s, afterCursor, lastTrimmedId), decode, filters)
    decreases |s| - Skip(s, StartOf(afterCursor, lastTrimmedId))
  {
    hide Sorted, Skip, Matches, PageFrom;
    var start := StartOf(afterCursor, lastTrimmedId);
    RestIsUnread(s, afterCursor, lastTrimmedId);
    RestDecodable(s, start, decode);
    PageOfDecodable(Rest(s, start), afterCursor, Some(limit), decode, filters);
    var page := PageFrom(Rest(s, start), afterCursor, Some(limit), decode, filters).value;
    if page.hasMore {
      var all := Matches(Rest(s, start), decode, filters);
      CutCursor(s, start, limit, decode, filters);
      ReadChainIsComplete(s, page.cursor, lastTrimmedId, limit, decode, filters);
      RestIsUnread(s, page.cursor, lastTrimmedId);
      assert all == all[..limit] + all[limit..];
    }
  }

  // --------------------------------------------------------- under interference

  /** The records of a page are the matches of what was scanned, up to the page's cursor. */
  lemma {:induction false} GatheredAreMatches(seen: seq<Entry>, decode: Decoder, filters: Filters, target: Option<nat>)
    ensures var progress := Gather(seen, decode, filters, target);
            && (progress.Going? ==> progress.records == Matches(seen, decode, filters))
            && (progress.Reached? ==> progress.records <= Matches(seen, decode, filters))
  {
    if seen != [] {
      GatheredAreMatches(seen[..|seen| - 1], decode, filters, target);
    }
  }

  /**
    While other processes append and trim, a page is strictly increasing, starts behind
    its cursor, and misses a matching record up to the page's cursor only if that record
    had been trimmed when the last round trip ran.
   */
  lemma {:induction false} PageUnderInterference(history: seq<Entry>, views: Views, start: Lower, batch: nat, n: nat,
                                                 cursor: Option<StreamId>, limit: Option<nat>, decode: Decoder,
                                                 filters: Filters, i: nat)
    requires Sorted(history) && Moving(history, views) && n > 0 && (limit.Some? ==> limit.value > 0)
    requires cursor.Some? ==> start == After(cursor.value)
    requires PageFrom(ScanAfter(history, views, start, batch, n).pulled, cursor, limit, decode, filters).Ok?
    requires Skip(history, start) <= i < |history|
    ensures var page := PageFrom(ScanAfter(history, views, start, batch, n).pulled, cursor, limit, decode, filters).value;
            && (forall j, k | 0 <= j < k < |page.records| :: Less(page.records[j].cursor, page.records[k].cursor))
            && (forall r | r in page.records :: Above(r.cursor, start))
            && (page.cursor.Some? && AtMost(history[i].id, page.cursor.value) ==>
                  i < views(n - 1).lo || forall r | r in MatchOf(history[i], decode, filters) :: r in page.records)
  {
    hide Moving, ScanAfter, PageFrom, Matches, Skip;
    var scan := ScanAfter(history, views, start, batch, n);
    var seen := scan.pulled;
    var page := PageFrom(seen, cursor, limit, decode, filters).value;
    ScanIsSound(history, views, start, batch, n);
    ScanCursor(history, views, start, batch, n);
    PageRecords(seen, cursor, limit, decode, filters);
    MatchesIncrease(seen, decode, filters);
    SkipCuts(history, start);
    forall r | r in page.records ensures Above(r.cursor, start) {
      SourceOf(seen, r, decode, filters);
    }
    if page.cursor.Some? && AtMost(history[i].id, page.cursor.value) && i >= views(n - 1).lo {
      PageReaches(seen, start, history[i].id, cursor, limit, decode, filters);
      SkipCuts(history, scan.cursor);
      assert history[i] in seen;
      forall r | r in MatchOf(history[i], decode, filters) ensures r in page.records {
        MatchesHold(seen, history[i], decode, filters);
        InPage(seen, r, cursor, limit, decode, filters);
      }
    }
  }

  /** A page's cursor never lies behind what was scanned. */
  lemma PageReaches(seen: seq<Entry>, start: Lower, id: StreamId, cursor: Option<StreamId>, limit: Option<nat>,
                    decode: Decoder, filters: Filters)
    requires Sorted(seen) && (limit.Some? ==> limit.value > 0) && PageFrom(seen, cursor, limit, decode, filters).Ok?
    requires cursor.Some? ==> start == After(cursor.value)
    requires var page := PageFrom(seen, cursor, limit, decode, filters).value;
             page.cursor.Some? && AtMost(id, page.cursor.value) && Above(id, start)
    ensures !Above(id, Resume(start, seen))
  {
    hide PageFrom;
    var page := PageFrom(seen, cursor, limit, decode, filters).value;
    PageRecords(seen, cursor, limit, decode, filters);
    if page.hasMore {
      MatchesUpTo(seen, decode, filters);
    }
  }

  lemma {:induction false} MatchesUpTo(s: seq<Entry>, decode: Decoder, filters: Filters)
    requires Sorted(s)
    ensures forall r | r in Matches(s, decode, filters) :: s != [] && AtMost(r.cursor, s[|s| - 1].id)
  {
    if s != [] {
      MatchesBelow(s[..|s| - 1], s[|s| - 1].id, decode, filters);
    }
  }

  /** A match up to the page's cursor is on the page. */
  lemma {:induction false} InPage(seen: seq<Entry>, r: Record, cursor: Option<StreamId>, limit: Option<nat>,
                                  decode: Decoder, filters: Filters)
    requires Sorted(seen) && (limit.Some? ==> limit.value > 0) && PageFrom(seen, cursor, limit, decode, filters).Ok?
    requires var page := PageFrom(seen, cursor, limit, decode, filters).value;
             page.cursor.Some? && AtMost(r.cursor, page.cursor.value)
    requires r in Matches(seen, decode, filters)
    ensures r in PageFrom(seen, cursor, limit, decode, filters).value.records
  {
    hide PageFrom, Matches;
    var page, all := PageFrom(seen, cursor, limit, decode, filters).value, Matches(seen, decode, filters);
    PageRecords(seen, cursor, limit, decode, filters);
    MatchesIncrease(seen, decode, filters);
    var j :| 0 <= j < |all| && all[j] == r;
    if page.hasMore {
      var last := |page.records| - 1;
      assert all[last] == page.records[last];
      assert j > last ==> Less(all[last].cursor, all[j].cursor);
      assert page.records[j] == r;
    }
  }

  lemma {:induction false} ScanCursor(history: seq<Entry>, views: Views, start: Lower, batch: nat, n: nat)
    ensures ScanAfter(history, views, start, batch, n).cursor
         == Resume(start, ScanAfter(history, views, start, batch, n).pulled)
  {
    if n > 0 {
      ScanCursor(history, views, start, batch, n - 1);
      var scan := ScanAfter(history, views, start, batch, n - 1);
      ResumeTwice(start, scan.pulled, PageOf(history, views(n - 1), scan.cursor, batch));
    }
  }

  lemma {:induction false} PageRecords(seen: seq<Entry>, cursor: Option<StreamId>, limit: Option<nat>,
                                       decode: Decoder, filters: Filters)
    requires limit.Some? ==> limit.value > 0
    requires PageFrom(seen, cursor, limit, decode, filters).Ok?
    ensures var page := PageFrom(seen, cursor, limit, decode, filters).value;
            && page.records <= Matches(seen, decode, filters)
            && (page.hasMore ==> page.records != [] && page.cursor == Some(page.records[|page.records| - 1].cursor))
            && (!page.hasMore ==> page.records == Matches(seen, decode, filters) && page.cursor == LastSeen(seen, cursor))
  {
    GatheredAreMatches(seen, decode, filters, Target(limit));
    GatherBounds(seen, decode, filters, Target(limit));
  }

  lemma {:induction false} SourceOf(seen: seq<Entry>, r: Record, decode: Decoder, filters: Filters)
    requires r in Matches(seen, decode, filters)
    ensures exists e | e in seen :: e.id == r.cursor
  {
    var n := |seen| - 1;
    if r in Matches(seen[..n], decode, filters) {
      SourceOf(seen[..n], r, decode, filters);
      var e :| e in seen[..n] && e.id == r.cursor;
      assert e in seen;
    } else {
      assert seen[n] in seen;
    }
  }
}
