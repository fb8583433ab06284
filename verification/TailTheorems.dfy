/** What a caller of `tail` may rely on. */
module TailTheorems {
  import opened Wrappers
  import opened StreamLog
  import opened Retention
  import opened StreamState
  import opened StreamInvariant
  import opened StreamTheorems
  import opened Records
  import opened Paging
  import opened BrokerReads
  import opened ReadTheorems

  lemma {:induction false} MatchesReversed(s: seq<Entry>, decode: Decoder, filters: Filters)
    ensures Matches(Reverse(s), decode, filters) == Reverse(Matches(s, decode, filters))
  {
    if s != [] {
      var n := |s| - 1;
      MatchesReversed(s[..n], decode, filters);
      MatchesSplit([s[n]], Reverse(s[..n]), decode, filters);
      MatchesOfOne(s[n], decode, filters);
      ReverseJoin(Matches(s[..n], decode, filters), MatchOf(s[n], decode, filters));
    }
  }

  lemma {:induction false} MatchesOfOne(e: Entry, decode: Decoder, filters: Filters)
    ensures Matches([e], decode, filters) == MatchOf(e, decode, filters)
    ensures Reverse(MatchOf(e, decode, filters)) == MatchOf(e, decode, filters)
  {
    assert [e][..0] == [];
    assert Matches([], decode, filters) == [];
  }

  /**
    The page of entries that all decode: the last `limit` matches in ascending order,
    `hasMore` exactly when there are more before them, and a cursor at the first record of
    a cut page, else at the oldest entry.
   */
  lemma {:induction false} TailPageOfDecodable(span: seq<Entry>, cursor: Option<StreamId>, limit: Option<nat>,
                                               decode: Decoder, filters: Filters)
    requires Decodable(span, decode) && (limit.Some? ==> limit.value > 0)
    ensures var page, all := TailPageFrom(Reverse(span), cursor, limit, decode, filters), Matches(span, decode, filters);
            && page.Ok?
            && (page.value.hasMore <==> limit.Some? && |all| > limit.value)
            && page.value.records == (if page.value.hasMore then all[|all| - limit.value..] else all)
            && page.value.cursor == if page.value.hasMore then Some(all[|all| - limit.value].cursor)
                                    else if span == [] then cursor else Some(span[0].id)
  {
    hide Matches, PageFrom, Reverse;
    var all := Matches(span, decode, filters);
    forall e | e in Reverse(span) ensures decode(e.body).Some? {
      ReverseIn(span, e);
    }
    PageOfDecodable(Reverse(span), cursor, limit, decode, filters);
    MatchesReversed(span, decode, filters);
    if limit.Some? && |all| > limit.value {
      ReverseCut(all, limit.value);
      ReverseAt(all, limit.value - 1);
    } else {
      ReverseTwice(all);
    }
    if span != [] {
      ReverseAt(span, |span| - 1);
    }
  }

  lemma SpanDecodable(s: seq<Entry>, lo: Lower, hi: Upper, decode: Decoder)
    requires Decodable(s, decode)
    ensures Decodable(Span(s, lo, hi), decode)
  {
  }

  /** The cursor of a cut page cuts the stream right before the page's first record. */
  lemma {:induction false} CutBefore(s: seq<Entry>, lo: Lower, hi: Upper, k: nat, decode: Decoder, filters: Filters)
    requires Sorted(s) && k < |Matches(Span(s, lo, hi), decode, filters)|
    ensures var all := Matches(Span(s, lo, hi), decode, filters);
            && Reach(s, Before(all[k].cursor)) < Reach(s, hi)
            && Matches(Span(s, lo, Before(all[k].cursor)), decode, filters) == all[..k]
  {
    hide Sorted, Skip, Reach, Matches, MatchOf;
    var span, p, r := Span(s, lo, hi), Skip(s, lo), Reach(s, hi);
    var i := MatchAt(span, k, decode, filters);
    MatchesAround(span, i, decode, filters);
    assert span == s[p..r] && s[p + i] == span[i];
    ReachAt(s, p + i);
    SliceOfSlice(s, p, r, 0, i);
  }

  /** What a tail may return: behind the boundary and, given a cursor, before that. */
  predicate InFront(id: StreamId, lastTrimmedId: Option<StreamId>, beforeCursor: Option<StreamId>) {
    Newer(id, lastTrimmedId) && (beforeCursor.Some? ==> Less(id, beforeCursor.value))
  }

  function InFrontOf(s: seq<Entry>, lastTrimmedId: Option<StreamId>, beforeCursor: Option<StreamId>): seq<Entry> {
    if s == [] then []
    else
      var n := |s| - 1;
      InFrontOf(s[..n], lastTrimmedId, beforeCursor) + if InFront(s[n].id, lastTrimmedId, beforeCursor) then [s[n]] else []
  }

  /** A tail ranges over exactly what lies in front of its cursor. */
  lemma RangesInFront(id: StreamId, lastTrimmedId: Option<StreamId>, beforeCursor: Option<StreamId>)
    ensures Above(id, ReadStart(lastTrimmedId)) && Below(id, EndOf(beforeCursor)) <==>
              InFront(id, lastTrimmedId, beforeCursor)
  {
  }

  lemma {:induction false} SpanIsInFront(s: seq<Entry>, lastTrimmedId: Option<StreamId>, beforeCursor: Option<StreamId>)
    requires Sorted(s)
    ensures Span(s, ReadStart(lastTrimmedId), EndOf(beforeCursor)) == InFrontOf(s, lastTrimmedId, beforeCursor)
  {
    hide Sorted, Skip, Reach, Above, Below, ReadStart, EndOf, InFront;
    var lo, hi := ReadStart(lastTrimmedId), EndOf(beforeCursor);
    SkipCuts(s, lo);
    ReachCuts(s, hi);
    var p, r := Skip(s, lo), Reach(s, hi);
    forall i | 0 <= i < |s| ensures InFront(s[i].id, lastTrimmedId, beforeCursor) <==> p <= i < r {
      RangesInFront(s[i].id, lastTrimmedId, beforeCursor);
    }
    InFrontFrom(s, p, r, |s|, lastTrimmedId, beforeCursor);
    assert s[..|s|] == s;
  }

  lemma InFrontMore(s: seq<Entry>, m: nat, lastTrimmedId: Option<StreamId>, beforeCursor: Option<StreamId>)
    requires 0 < m <= |s|
    ensures InFrontOf(s[..m], lastTrimmedId, beforeCursor)
         == InFrontOf(s[..m - 1], lastTrimmedId, beforeCursor)
            + if InFront(s[m - 1].id, lastTrimmedId, beforeCursor) then [s[m - 1]] else []
  {
    hide InFront;
    assert s[..m][..m - 1] == s[..m - 1];
  }

  lemma {:induction false} InFrontFrom(s: seq<Entry>, p: nat, r: nat, m: nat, lastTrimmedId: Option<StreamId>,
                                       beforeCursor: Option<StreamId>)
    requires p <= |s| && r <= |s| && m <= |s|
    requires forall i | 0 <= i < |s| :: InFront(s[i].id, lastTrimmedId, beforeCursor) <==> p <= i < r
    ensures InFrontOf(s[..m], lastTrimmedId, beforeCursor) == if p <= Min(m, r) then s[p..Min(m, r)] else []
  {
    if m == 0 {
      assert p == 0 ==> s[p..0] == [];
    } else {
      hide InFront, InFrontOf;
      InFrontFrom(s, p, r, m - 1, lastTrimmedId, beforeCursor);
      InFrontMore(s, m, lastTrimmedId, beforeCursor);
      if p < m <= r {
        JoinSlices(s, p, m - 1, m);
        assert s[m - 1..m] == [s[m - 1]];
      } else if m <= r {
        assert p == m ==> s[p..m] == [];
      }
    }
  }

  /** What `tail` returns lies between boundary and cursor, whatever others do between its round trips. */
  lemma {:induction false} TailReturnsWhatIsInFront(history: seq<Entry>, views: Views, ensured: bool,
                                                    lastTrimmedId: Option<StreamId>, beforeCursor: Option<StreamId>,
                                                    limit: Option<int>, filters: Filters, decode: Decoder, batch: nat,
                                                    page: Result<BrokerPage, ReadError>, rounds: nat)
    requires Sorted(history) && Moving(history, views) && batch > 0
    requires TailAnswers(history, views, ensured, lastTrimmedId, beforeCursor, limit, filters, decode, batch, page, rounds)
    ensures page.Ok? ==> forall r | r in page.value.records ::
              Newer(r.cursor, lastTrimmedId) && (beforeCursor.Some? ==> Less(r.cursor, beforeCursor.value))
  {
    hide Moving, BackAfter, TailPageFrom, Matches, Skip, Reach, Sorted, EndOf, ReadStart, TailEnded, Above, Below, Top;
    hide Floor, Reverse, Gather;
    if page.Ok? && ensured && (limit.Some? ==> limit.value > 0) {
      var from, end, bound := EndOf(beforeCursor), ReadStart(lastTrimmedId), Bound(limit);
      var bottom := TailScanned(history, views, from, end, batch, rounds, bound, decode, filters);
      TailRecords(history[bottom..Top(history, views, from)], beforeCursor, bound, decode, filters);
      TailInRange(history, views, from, end, bottom, decode, filters);
      forall r | r in page.value.records
        ensures Newer(r.cursor, lastTrimmedId) && (beforeCursor.Some? ==> Less(r.cursor, beforeCursor.value))
      {
        RangesInFront(r.cursor, lastTrimmedId, beforeCursor);
      }
    }
  }

  /** On a still stream `tail` returns, of exactly the entries between boundary and cursor, the last `limit` matches. */
  lemma {:induction false} TailIsLastInFront(history: seq<Entry>, views: Views, lastTrimmedId: Option<StreamId>,
                                             beforeCursor: Option<StreamId>, limit: Option<int>, filters: Filters,
                                             decode: Decoder, batch: nat, page: Result<BrokerPage, ReadError>,
                                             rounds: nat)
    requires Sorted(history) && Moving(history, views) && Still(views) && batch > 0
    requires (limit.Some? ==> limit.value > 0) && TailCursorAccepted(beforeCursor, lastTrimmedId)
    requires TailAnswers(history, views, true, lastTrimmedId, beforeCursor, limit, filters, decode, batch, page, rounds)
    requires Decodable(Held(history, views(0)), decode)
    ensures var span := InFrontOf(Held(history, views(0)), lastTrimmedId, beforeCursor);
            var all := Matches(span, decode, filters);
            && page.Ok?
            && (page.value.hasMore <==> limit.Some? && |all| > limit.value)
            && page.value.records == (if page.value.hasMore then all[|all| - limit.value..] else all)
            && page.value.cursor == if page.value.hasMore then Some(all[|all| - limit.value].cursor)
                                    else if span == [] then beforeCursor else Some(span[0].id)
  {
    hide BackAfter, TailPageFrom, Matches, Skip, Reach, Sorted, EndOf, ReadStart, TailEnded, Held, Reverse, Moving;
    var s, from, end := Held(history, views(0)), EndOf(beforeCursor), ReadStart(lastTrimmedId);
    ContentSorted(history, views(0));
    SpanIsInFront(s, lastTrimmedId, beforeCursor);
    SpanDecodable(s, end, from, decode);
    TailOfStillStream(history, views, from, end, batch, rounds, beforeCursor, Bound(limit), decode, filters);
    TailPageOfDecodable(Span(s, end, from), beforeCursor, Bound(limit), decode, filters);
  }

  /** Tailing page after page, each before the last one's cursor, until one says there are no more. */
  ghost function TailChain(s: seq<Entry>, lastTrimmedId: Option<StreamId>, beforeCursor: Option<StreamId>, limit: nat,
                           decode: Decoder, filters: Filters): seq<Record>
    requires Sorted(s) && Decodable(s, decode) && limit > 0
    decreases Reach(s, EndOf(beforeCursor))
  {
    var lo, hi := ReadStart(lastTrimmedId), EndOf(beforeCursor);
    SpanDecodable(s, lo, hi, decode);
    TailPageOfDecodable(Span(s, lo, hi), beforeCursor, Some(limit), decode, filters);
    var page := TailPageFrom(Reverse(Span(s, lo, hi)), beforeCursor, Some(limit), decode, filters).value;
    if page.hasMore then
      CutBefore(s, lo, hi, |Matches(Span(s, lo, hi), decode, filters)| - limit, decode, filters);
      TailChain(s, lastTrimmedId, page.cursor, limit, decode, filters) + page.records
    else page.records
  }

  /** A chain of tails prepends to exactly the matching records between boundary and cursor. */
  lemma {:induction false} TailChainIsComplete(s: seq<Entry>, lastTrimmedId: Option<StreamId>,
                                               beforeCursor: Option<StreamId>, limit: nat, decode: Decoder,
                                               filters: Filters)
    requires Sorted(s) && Decodable(s, decode) && limit > 0
    ensures TailChain(s, lastTrimmedId, beforeCursor, limit, decode, filters)
         == Matches(InFrontOf(s, lastTrimmedId, beforeCursor), decode, filters)
    decreases Reach(s, EndOf(beforeCursor))
  {
    hide Sorted, Skip, Reach, Matches, TailPageFrom, Span, InFrontOf, Reverse, ReadStart;
    var lo, hi := ReadStart(lastTrimmedId), EndOf(beforeCursor);
    SpanIsInFront(s, lastTrimmedId, beforeCursor);
    SpanDecodable(s, lo, hi, decode);
    TailPageOfDecodable(Span(s, lo, hi), beforeCursor, Some(limit), decode, filters);
    var page := TailPageFrom(Reverse(Span(s, lo, hi)), beforeCursor, Some(limit), decode, filters).value;
    if page.hasMore {
      var all := Matches(Span(s, lo, hi), decode, filters);
      CutBefore(s, lo, hi, |all| - limit, decode, filters);
      TailChainIsComplete(s, lastTrimmedId, page.cursor, limit, decode, filters);
      SpanIsInFront(s, lastTrimmedId, page.cursor);
      assert all == all[..|all| - limit] + all[|all| - limit..];
    }
  }

  /** `tail` refuses a cursor exactly when the record it names, or one behind that, has left the retained range. */
  lemma {:induction false} TailRefusesExactlyTheTrimmed(steps: seq<Step>, cursor: StreamId)
    ensures var st := Run(steps);
            && (!TailCursorAccepted(Some(cursor), st.lastTrimmedId) <==>
                  exists i :: 0 <= i < |st.history| && AtMost(cursor, st.history[i].id)
                              && !Newer(st.history[i].id, st.lastTrimmedId))
            && (!TailCursorAccepted(Some(cursor), st.lastTrimmedId) ==>
                  forall e | e in Visible(st) :: Less(cursor, e.id))
  {
    hide Next, DedupeInv, Visible, Newer, TailCursorAccepted, OverLimit, Bytes, Sorted, LastOf;
    EveryRunKeepsInv(steps);
    var st := Run(steps);
    var m := OverLimit(st.entries, st.limits);
    BoundarySplits(st);
    VisibleIsMarked(st);
    CursorAgainst(st.history, Gone(st) + m, st.lastTrimmedId, cursor);
    assert st.history[Gone(st)..][m..] == st.history[Gone(st) + m..];
  }

  lemma CursorAgainst(history: seq<Entry>, t: nat, boundary: Option<StreamId>, cursor: StreamId)
    requires Sorted(history) && t <= |history| && boundary == LastOf(history, t)
    requires forall i | 0 <= i < |history| :: Newer(history[i].id, boundary) <==> t <= i
    ensures !TailCursorAccepted(Some(cursor), boundary) <==>
              exists i :: 0 <= i < |history| && AtMost(cursor, history[i].id) && !Newer(history[i].id, boundary)
    ensures !TailCursorAccepted(Some(cursor), boundary) ==> forall e | e in history[t..] :: Less(cursor, e.id)
  {
    hide Sorted;
    if !TailCursorAccepted(Some(cursor), boundary) {
      assert AtMost(cursor, history[t - 1].id) && !Newer(history[t - 1].id, boundary);
    }
    if i :| 0 <= i < |history| && AtMost(cursor, history[i].id) && !Newer(history[i].id, boundary) {
      NewestIsLast(history[..t], i + 1) by {
        assert Sorted(history[..t]) by { PrefixSorted(history, t); }
      }
    }
  }

  lemma PrefixSorted(s: seq<Entry>, k: nat)
    requires Sorted(s) && k <= |s|
    ensures Sorted(s[..k])
  {
  }

  // ------------------------------------------------------- under interference

  /**
    What a tail scanned: one slice of the history, newest first, from the newest entry its
    first round trip saw; if it gathered to the end, down to what its last round trip left.
   */
  lemma {:induction false} TailScanned(history: seq<Entry>, views: Views, from: Upper, end: Lower, batch: nat, n: nat,
                                       limit: Option<nat>, decode: Decoder, filters: Filters) returns (bottom: nat)
    requires Sorted(history) && Moving(history, views) && batch > 0
    requires TailEnded(history, views, from, end, batch, n, limit, decode, filters)
    ensures n > 0 && bottom <= Top(history, views, from) <= |history|
    ensures var seen := BackAfter(history, views, from, end, batch, n).pulled;
            && seen == Reverse(history[bottom..Top(history, views, from)])
            && (Gather(seen, decode, filters, Target(limit)).Going? ==> bottom <= Floor(history, views(n - 1), end))
    ensures bottom < Top(history, views, from) ==> Floor(history, views(0), end) <= bottom
  {
    hide Sorted, Gather, BackPage, BackAfter, Reverse, Skip, Reach, Top, Floor, Moving;
    FirstNotEmpty(history, views, from, end, batch, limit, decode, filters);
    var above: nat := BackScanIsSlice(history, views, from, end, batch, n - 1);
    bottom := BackScanIsSlice(history, views, from, end, batch, n);
    BackTripDescends(history, views, from, end, batch, n - 1, above);
  }

  lemma HeldIs(history: seq<Entry>, w: Window)
    requires w.Within(history)
    ensures Held(history, w) == history[w.lo..w.hi]
  {
  }

  lemma {:induction false} SpanHeld(history: seq<Entry>, w: Window, lo: Lower, hi: Upper)
    requires Sorted(history) && w.Within(history)
    ensures var p, r := Floor(history, w, lo), Min(Reach(history, hi), w.hi);
            Span(Held(history, w), lo, hi) == if p < r then history[p..r] else []
  {
    hide Sorted, Skip, Reach, Held;
    ContentCuts(history, w, lo);
    ContentReach(history, w, hi);
    HeldIs(history, w);
    var p, r := Floor(history, w, lo), Min(Reach(history, hi), w.hi);
    if p < r {
      SliceOfSlice(history, w.lo, w.hi, p - w.lo, r - w.lo);
    }
  }

  /** What lies below the scanned slice does not change the page: it is out of range, or was not needed. */
  lemma {:induction false} SliceSettles(history: seq<Entry>, p: nat, bottom: nat, top: nat, cursor: Option<StreamId>,
                                        limit: Option<nat>, decode: Decoder, filters: Filters)
    requires bottom <= top <= |history| && (bottom < top ==> p <= bottom) && (limit.Some? ==> limit.value > 0)
    requires Gather(Reverse(history[bottom..top]), decode, filters, Target(limit)).Going? ==> bottom <= p
    ensures PageFrom(Reverse(history[bottom..top]), cursor, limit, decode, filters)
         == PageFrom(Reverse(if p < top then history[p..top] else []), cursor, limit, decode, filters)
  {
    hide Gather, PageFrom, Reverse;
    if p < bottom {
      JoinSlices(history, p, bottom, top);
      ReverseJoin(history[p..bottom], history[bottom..top]);
      PageStops(Reverse(history[bottom..top]), Reverse(history[p..bottom]), cursor, limit, decode, filters);
    } else if bottom == top {
      NothingReversed<Entry>();
      assert history[top..top] == [];
      GatherNothing(decode, filters, Target(limit));
    }
  }

  /** On a still stream a tail is the page of the span between boundary and cursor, for every batch size. */
  lemma {:induction false} TailOfStillStream(history: seq<Entry>, views: Views, from: Upper, end: Lower, batch: nat,
                                             n: nat, cursor: Option<StreamId>, limit: Option<nat>, decode: Decoder,
                                             filters: Filters)
    requires Sorted(history) && Moving(history, views) && Still(views) && batch > 0 && (limit.Some? ==> limit.value > 0)
    requires TailEnded(history, views, from, end, batch, n, limit, decode, filters)
    ensures TailPageFrom(BackAfter(history, views, from, end, batch, n).pulled, cursor, limit, decode, filters)
         == TailPageFrom(Reverse(Span(Held(history, views(0)), end, from)), cursor, limit, decode, filters)
  {
    hide Sorted, Gather, PageFrom, BackAfter, BackPage, Reverse, Skip, Reach, Floor, Span;
    var bottom := TailScanned(history, views, from, end, batch, n, limit, decode, filters);
    assert views(n - 1) == views(0);
    SliceSettles(history, Floor(history, views(0), end), bottom, Top(history, views, from), cursor, limit, decode, filters);
    SpanHeld(history, views(0), end, from);
  }

  /** The records of a tail's page are the last matches of the slice it scanned. */
  lemma {:induction false} TailRecords(span: seq<Entry>, cursor: Option<StreamId>, limit: Option<nat>,
                                       decode: Decoder, filters: Filters)
    requires limit.Some? ==> limit.value > 0
    requires TailPageFrom(Reverse(span), cursor, limit, decode, filters).Ok?
    ensures var page, all := TailPageFrom(Reverse(span), cursor, limit, decode, filters).value, Matches(span, decode, filters);
            && |page.records| <= |all| && page.records == all[|all| - |page.records|..]
            && (page.hasMore ==> page.records != [] && page.cursor == Some(page.records[0].cursor))
            && (!page.hasMore ==> page.records == all)
  {
    hide PageFrom, Matches, Gather, Reverse;
    var page, all := PageFrom(Reverse(span), cursor, limit, decode, filters).value, Matches(span, decode, filters);
    PageRecords(Reverse(span), cursor, limit, decode, filters);
    MatchesReversed(span, decode, filters);
    var k := |page.records|;
    assert page.records == Reverse(all)[..k];
    ReverseCut(all, k);
    if page.hasMore {
      ReverseAt(page.records, 0);
    }
    if !page.hasMore {
      ReverseTwice(all);
    }
  }

  lemma MoreWhenReached(seen: seq<Entry>, cursor: Option<StreamId>, limit: Option<nat>, decode: Decoder, filters: Filters)
    requires (limit.Some? ==> limit.value > 0) && TailPageFrom(seen, cursor, limit, decode, filters).Ok?
    ensures TailPageFrom(seen, cursor, limit, decode, filters).value.hasMore
       <==> !Gather(seen, decode, filters, Target(limit)).Going?
  {
    hide Gather;
  }

  /** A page that says there is more reaches down to its cursor, any other to the end of what was scanned. */
  predicate ReachesTo(page: BrokerPage, id: StreamId) {
    page.hasMore && page.cursor.Some? ==> AtMost(page.cursor.value, id)
  }

  /** The records of a page lie where the scanned slice does. */
  lemma {:induction false} TailWithin(span: seq<Entry>, r: Record, decode: Decoder, filters: Filters)
    requires r in Matches(span, decode, filters)
    ensures exists i :: 0 <= i < |span| && span[i].id == r.cursor
  {
    SourceOf(span, r, decode, filters);
    var e :| e in span && e.id == r.cursor;
    var i :| 0 <= i < |span| && span[i] == e;
  }

  /** Of the matches in the scanned slice, a page holds those not older than it reaches. */
  lemma {:induction false} TailHolds(span: seq<Entry>, e: Entry, cursor: Option<StreamId>, limit: Option<nat>,
                                     decode: Decoder, filters: Filters)
    requires Sorted(span) && e in span && (limit.Some? ==> limit.value > 0)
    requires TailPageFrom(Reverse(span), cursor, limit, decode, filters).Ok?
    requires ReachesTo(TailPageFrom(Reverse(span), cursor, limit, decode, filters).value, e.id)
    ensures forall r | r in MatchOf(e, decode, filters) ::
              r in TailPageFrom(Reverse(span), cursor, limit, decode, filters).value.records
  {
    hide Matches, TailPageFrom, Reverse;
    var page, all := TailPageFrom(Reverse(span), cursor, limit, decode, filters).value, Matches(span, decode, filters);
    TailRecords(span, cursor, limit, decode, filters);
    MatchesIncrease(span, decode, filters);
    MatchesHold(span, e, decode, filters);
    forall r | r in MatchOf(e, decode, filters) ensures r in page.records {
      AmongTheLast(all, |page.records|, r);
    }
  }

  /** Of increasing records, those not older than the first of the last k are among the last k. */
  lemma AmongTheLast(all: seq<Record>, k: nat, r: Record)
    requires forall i, j | 0 <= i < j < |all| :: Less(all[i].cursor, all[j].cursor)
    requires k <= |all| && r in all && (k < |all| ==> k > 0 && AtMost(all[|all| - k].cursor, r.cursor))
    ensures r in all[|all| - k..]
  {
    var first := |all| - k;
    var j :| 0 <= j < |all| && all[j] == r;
    if j >= first {
      assert all[first..][j - first] == r;
    }
  }

  lemma {:induction false} MatchesAbove(history: seq<Entry>, bottom: nat, top: nat, i: nat, decode: Decoder,
                                        filters: Filters)
    requires Sorted(history) && i < bottom <= top <= |history|
    ensures forall r | r in Matches(history[bottom..top], decode, filters) :: Less(history[i].id, r.cursor)
  {
    hide Matches, Less;
    var span := history[bottom..top];
    forall r | r in Matches(span, decode, filters) ensures Less(history[i].id, r.cursor) {
      TailWithin(span, r, decode, filters);
      var j :| 0 <= j < |span| && span[j].id == r.cursor;
      assert Less(history[i].id, history[bottom + j].id);
    }
  }

  /** What is older than the scanned slice is older than the page reaches, or was gone. */
  lemma {:induction false} TailMissesOnlyGone(history: seq<Entry>, p: nat, bottom: nat, top: nat, i: nat,
                                              cursor: Option<StreamId>, limit: Option<nat>, decode: Decoder,
                                              filters: Filters)
    requires Sorted(history) && i < bottom <= top <= |history| && (limit.Some? ==> limit.value > 0)
    requires Gather(Reverse(history[bottom..top]), decode, filters, Target(limit)).Going? ==> bottom <= p
    requires TailPageFrom(Reverse(history[bottom..top]), cursor, limit, decode, filters).Ok?
    requires ReachesTo(TailPageFrom(Reverse(history[bottom..top]), cursor, limit, decode, filters).value, history[i].id)
    ensures i < p
  {
    hide Gather, TailPageFrom, Reverse, Matches;
    var span := history[bottom..top];
    TailRecords(span, cursor, limit, decode, filters);
    MoreWhenReached(Reverse(span), cursor, limit, decode, filters);
    MatchesAbove(history, bottom, top, i, decode, filters);
    var page := TailPageFrom(Reverse(span), cursor, limit, decode, filters).value;
    assert page.records != [] ==> page.records[0] in Matches(span, decode, filters);
  }

  /**
    While other processes append and trim, a page is strictly increasing and lies between
    boundary and cursor. Of the matches there when its first round trip ran, and not older
    than the page reaches, it misses one only if that had been trimmed by its last.
   */
  lemma {:induction false} TailUnderInterference(history: seq<Entry>, views: Views, from: Upper, end: Lower, batch: nat,
                                                 n: nat, cursor: Option<StreamId>, limit: Option<nat>, decode: Decoder,
                                                 filters: Filters, i: nat)
    requires Sorted(history) && Moving(history, views) && batch > 0 && (limit.Some? ==> limit.value > 0)
    requires TailEnded(history, views, from, end, batch, n, limit, decode, filters)
    requires TailPageFrom(BackAfter(history, views, from, end, batch, n).pulled, cursor, limit, decode, filters).Ok?
    requires Skip(history, end) <= i < Top(history, views, from)
    ensures var page := TailPageFrom(BackAfter(history, views, from, end, batch, n).pulled, cursor, limit, decode, filters).value;
            && (forall j, k | 0 <= j < k < |page.records| :: Less(page.records[j].cursor, page.records[k].cursor))
            && (forall r | r in page.records :: Above(r.cursor, end) && Below(r.cursor, from))
            && (ReachesTo(page, history[i].id) ==>
                  i < views(n - 1).lo || forall r | r in MatchOf(history[i], decode, filters) :: r in page.records)
  {
    hide Sorted, Gather, TailPageFrom, TailEnded, BackAfter, Reverse, Skip, Reach, Matches, MatchOf, ReachesTo, Top, Floor;
    var bottom := TailScanned(history, views, from, end, batch, n, limit, decode, filters);
    var top := Top(history, views, from);
    var span := history[bottom..top];
    var page := TailPageFrom(Reverse(span), cursor, limit, decode, filters).value;
    SliceSorted(history, bottom, top);
    TailRecords(span, cursor, limit, decode, filters);
    MatchesIncrease(span, decode, filters);
    TailInRange(history, views, from, end, bottom, decode, filters);
    if ReachesTo(page, history[i].id) {
      if i < bottom {
        var floor := Floor(history, views(n - 1), end);
        TailMissesOnlyGone(history, floor, bottom, top, i, cursor, limit, decode, filters);
        FloorIs(history, views(n - 1), end);
      } else {
        assert span[i - bottom] == history[i];
        TailHolds(span, history[i], cursor, limit, decode, filters);
      }
    }
  }

  lemma SliceSorted(history: seq<Entry>, a: nat, b: nat)
    requires Sorted(history) && a <= b <= |history|
    ensures Sorted(history[a..b])
  {
  }

  lemma FloorIs(history: seq<Entry>, w: Window, end: Lower)
    ensures Floor(history, w, end) == Skip(history, end) || Floor(history, w, end) == w.lo
  {
  }

  /** Everything scanned lies between boundary and cursor. */
  lemma TailInRange(history: seq<Entry>, views: Views, from: Upper, end: Lower, bottom: nat, decode: Decoder,
                    filters: Filters)
    requires Sorted(history) && bottom <= Top(history, views, from) <= |history|
    requires bottom < Top(history, views, from) ==> Floor(history, views(0), end) <= bottom
    ensures forall r | r in Matches(history[bottom..Top(history, views, from)], decode, filters) ::
              Above(r.cursor, end) && Below(r.cursor, from)
  {
    hide Sorted, Skip, Reach, Above, Below, Matches;
    SkipCuts(history, end);
    ReachCuts(history, from);
    var span := history[bottom..Top(history, views, from)];
    forall r | r in Matches(span, decode, filters) ensures Above(r.cursor, end) && Below(r.cursor, from) {
      TailWithin(span, r, decode, filters);
      var i :| 0 <= i < |span| && span[i].id == r.cursor;
      assert history[bottom + i].id == r.cursor;
    }
  }
}
