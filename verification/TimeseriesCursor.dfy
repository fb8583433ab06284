/** Paging a timeseries by (offset, timestamp) cursors, and repairing the ones the server gets wrong. */
module TimeseriesCursor {
  import opened Wrappers
  import opened Decimals

  datatype Sample = Sample(time: string, name: string, value: int)

  /** How many rows of the bucket at `timestamp` have been returned. */
  datatype Cursor = Cursor(offset: nat, timestamp: string)

  datatype Page = Page(samples: seq<Sample>, hasMore: bool)

  // ------------------------------------------------------------ the server's rows

  /** Rows of one time are next to each other, as in rows sorted by time. */
  ghost predicate Bucketed(rows: seq<Sample>) {
    forall i, j, k | 0 <= i <= j <= k < |rows| && rows[i].time == rows[k].time :: rows[j].time == rows[i].time
  }

  /** The first row of a bucket. */
  function BucketStart(rows: seq<Sample>, time: string): (start: nat)
    ensures start <= |rows|
  {
    if rows == [] || rows[0].time == time then 0 else 1 + BucketStart(rows[1..], time)
  }

  lemma {:induction false} BucketStartIs(rows: seq<Sample>, time: string)
    ensures var start := BucketStart(rows, time);
            (start < |rows| ==> rows[start].time == time) && forall i | 0 <= i < start :: rows[i].time != time
  {
    if rows != [] && rows[0].time != time {
      BucketStartIs(rows[1..], time);
    }
  }

  /** The row a cursor stands before. */
  function Position(rows: seq<Sample>, cursor: Option<Cursor>): nat {
    if cursor.None? then 0 else BucketStart(rows, cursor.value.timestamp) + cursor.value.offset
  }

  /** A cursor counts rows of its own bucket only. */
  predicate Denotes(rows: seq<Sample>, cursor: Option<Cursor>, position: nat) {
    position == Position(rows, cursor) <= |rows|
    && (cursor.Some? && cursor.value.offset > 0 ==> rows[position - 1].time == cursor.value.timestamp)
  }

  /** How many rows the server puts on its k-th page: it decides, but gives at least one while there are any. */
  type Sizes = nat -> nat

  ghost predicate ServesRows(sizes: Sizes) {
    forall k: nat :: sizes(k) > 0
  }

  /** The page of `size` rows at a position, or of the rows that are left. */
  function PageOfRows(rows: seq<Sample>, position: nat, size: nat): Page
    requires position <= |rows|
  {
    var end := if position + size <= |rows| then position + size else |rows|;
    Page(rows[position..end], end < |rows|)
  }

  /** What the server answers to a cursor. */
  method GetPage(rows: seq<Sample>, cursor: Option<Cursor>, size: nat) returns (page: Page)
    requires size > 0 && Position(rows, cursor) <= |rows|
    ensures page == PageOfRows(rows, Position(rows, cursor), size)
    ensures PageAt(rows, page, Position(rows, cursor))
    ensures page.hasMore ==> page.samples != []
  {
    var position := Position(rows, cursor);
    var end := if position + size <= |rows| then position + size else |rows|;
    page := Page(rows[position..end], end < |rows|);
  }

  // ----------------------------------------------------------------- the repair

  /** How many rows at the end have the last row's time. */
  function RowsOfLastBucket(samples: seq<Sample>): (n: nat)
    requires samples != []
    ensures 0 < n <= |samples|
  {
    var last := samples[|samples| - 1];
    if |samples| > 1 && samples[|samples| - 2].time == last.time then RowsOfLastBucket(samples[..|samples| - 1]) + 1 else 1
  }

  lemma {:induction false} LastBucketIs(samples: seq<Sample>)
    requires samples != []
    ensures var n, last := RowsOfLastBucket(samples), samples[|samples| - 1].time;
            (forall i | |samples| - n <= i < |samples| :: samples[i].time == last)
            && (n < |samples| ==> samples[|samples| - n - 1].time != last)
  {
    var k := |samples| - 1;
    if k > 0 && samples[k - 1].time == samples[k].time {
      LastBucketIs(samples[..k]);
    }
  }

  /** The server's own cursor: the rows this page took from its last bucket. */
  function AceCursor(page: Page): Cursor
    requires page.samples != []
  {
    Cursor(RowsOfLastBucket(page.samples), page.samples[|page.samples| - 1].time)
  }

  /** The repaired one carries on when the page ended in the bucket it started in. */
  function RepairedCursor(incoming: Option<Cursor>, page: Page): Option<Cursor> {
    if !page.hasMore || page.samples == [] then None
    else
      var ace := AceCursor(page);
      var carried := if incoming.Some? && incoming.value.timestamp == ace.timestamp then incoming.value.offset else 0;
      Some(Cursor(carried + ace.offset, ace.timestamp))
  }

  method RepairTimeseriesCursor(incoming: Option<Cursor>, page: Page) returns (cursor: Option<Cursor>)
    ensures cursor == RepairedCursor(incoming, page)
  {
    var samples := page.samples;
    if !page.hasMore || |samples| == 0 {
      return None;
    }
    var lastTimestamp := samples[|samples| - 1].time;
    var rowsFromLastBucket: nat := 0;
    var index := |samples| - 1;
    while index >= 0 && samples[index].time == lastTimestamp
      invariant -1 <= index < |samples| && rowsFromLastBucket == |samples| - 1 - index
      invariant forall i | index < i < |samples| :: samples[i].time == lastTimestamp
    {
      rowsFromLastBucket := rowsFromLastBucket + 1;
      index := index - 1;
    }
    LastBucketIs(samples);
    var carried: nat := if incoming.Some? && incoming.value.timestamp == lastTimestamp then incoming.value.offset else 0;
    cursor := Some(Cursor(carried + rowsFromLastBucket, lastTimestamp));
  }

  /** The page a server with these rows gives from a position. */
  ghost predicate PageAt(rows: seq<Sample>, page: Page, position: nat) {
    position + |page.samples| <= |rows| && page.samples == rows[position..position + |page.samples|]
    && page.hasMore == (position + |page.samples| < |rows|)
  }

  lemma {:induction false} BucketUpTo(rows: seq<Sample>, i: nat)
    requires Bucketed(rows) && i < |rows|
    ensures var start := BucketStart(rows, rows[i].time);
            start <= i && (start > 0 ==> rows[start - 1].time != rows[i].time)
            && forall j | start <= j <= i :: rows[j].time == rows[i].time
  {
    BucketStartIs(rows, rows[i].time);
    hide BucketStart;
    assert BucketStart(rows, rows[i].time) <= i;
  }

  /** There is one way to count the rows of the last bucket. */
  lemma {:induction false} LastRunIsUnique(samples: seq<Sample>, k: nat)
    requires samples != [] && k <= |samples|
    requires forall i | |samples| - k <= i < |samples| :: samples[i].time == samples[|samples| - 1].time
    requires k < |samples| ==> samples[|samples| - k - 1].time != samples[|samples| - 1].time
    ensures RowsOfLastBucket(samples) == k
  {
    LastBucketIs(samples);
    hide RowsOfLastBucket;
    assert k > 0;
  }

  lemma LastRunInRows(rows: seq<Sample>, lo: nat, from: nat, end: nat)
    requires lo <= from < end <= |rows|
    requires forall j | from <= j < end :: rows[j].time == rows[end - 1].time
    requires from > lo ==> rows[from - 1].time != rows[end - 1].time
    ensures RowsOfLastBucket(rows[lo..end]) == end - from
  {
    var samples := rows[lo..end];
    hide RowsOfLastBucket;
    assert forall i | 0 <= i < |samples| :: samples[i] == rows[lo + i];
    LastRunIsUnique(samples, end - from);
  }

  /** The rows of the last bucket on a page: from the start of the bucket, or of the page. */
  lemma {:induction false} LastBucketOfPage(rows: seq<Sample>, lo: nat, end: nat)
    requires Bucketed(rows) && lo < end <= |rows|
    ensures RowsOfLastBucket(rows[lo..end]) == end - Max(lo, BucketStart(rows, rows[end - 1].time))
  {
    var start := BucketStart(rows, rows[end - 1].time);
    BucketUpTo(rows, end - 1);
    hide Bucketed, BucketStart, RowsOfLastBucket;
    LastRunInRows(rows, lo, if start <= lo then lo else start, end);
  }

  /** A cursor's bucket, when it is not the last one of the page, ends before the last one starts. */
  lemma {:induction false} LaterBucketStartsHere(rows: seq<Sample>, incoming: Option<Cursor>, position: nat, end: nat)
    requires Bucketed(rows) && Denotes(rows, incoming, position) && position < end <= |rows|
    ensures var last := rows[end - 1].time;
            incoming.None? || incoming.value.timestamp != last ==> BucketStart(rows, last) >= position
  {
    var last := rows[end - 1].time;
    BucketUpTo(rows, end - 1);
    if incoming.Some? {
      BucketStartIs(rows, incoming.value.timestamp);
    }
    hide Bucketed, BucketStart;
    if BucketStart(rows, last) < position {
      assert rows[position - 1].time == last && rows[position].time == last;
    }
  }

  /** The server's count, by whether the page ended in the bucket the incoming cursor counts. */
  lemma {:induction false} AceCount(rows: seq<Sample>, incoming: Option<Cursor>, page: Page, position: nat)
    requires Bucketed(rows) && Denotes(rows, incoming, position) && PageAt(rows, page, position) && page.samples != []
    ensures var end, ace := position + |page.samples|, AceCursor(page);
            ace.timestamp == rows[end - 1].time
            && BucketStart(rows, ace.timestamp) < end
            && if incoming.Some? && incoming.value.timestamp == ace.timestamp
               then ace.offset == |page.samples| && position == BucketStart(rows, ace.timestamp) + incoming.value.offset
               else ace.offset == end - BucketStart(rows, ace.timestamp) && position <= BucketStart(rows, ace.timestamp)
  {
    hide *;
    var end := position + |page.samples|;
    AceAtEnd(rows, page, position);
    LastBucketOfPage(rows, position, end);
    LaterBucketStartsHere(rows, incoming, position, end);
    StartsBefore(rows, end - 1);
    CursorStands(rows, incoming, position);
    var ace := AceCursor(page);
    MaxIs(position, BucketStart(rows, ace.timestamp));
  }

  lemma AceAtEnd(rows: seq<Sample>, page: Page, position: nat)
    requires PageAt(rows, page, position) && page.samples != []
    ensures var end := position + |page.samples|;
            end <= |rows| && AceCursor(page) == Cursor(RowsOfLastBucket(rows[position..end]), rows[end - 1].time)
  {
    hide RowsOfLastBucket;
    assert page.samples[|page.samples| - 1] == rows[position + |page.samples| - 1];
  }

  lemma {:induction false} CursorStands(rows: seq<Sample>, cursor: Option<Cursor>, position: nat)
    requires Denotes(rows, cursor, position)
    ensures if cursor.None? then position == 0
            else position == BucketStart(rows, cursor.value.timestamp) + cursor.value.offset
  {
  }

  lemma MaxIs(a: int, b: int)
    ensures Max(a, b) == if a >= b then a else b
  {
  }

  lemma {:induction false} StartsBefore(rows: seq<Sample>, i: nat)
    requires i < |rows|
    ensures BucketStart(rows, rows[i].time) <= i
  {
    BucketStartIs(rows, rows[i].time);
    hide BucketStart;
  }

  /** The repaired cursor stands exactly where the page ended. */
  lemma RepairIsExact(rows: seq<Sample>, incoming: Option<Cursor>, page: Page, position: nat)
    requires Bucketed(rows) && Denotes(rows, incoming, position) && PageAt(rows, page, position)
    requires page.hasMore && page.samples != []
    ensures Denotes(rows, RepairedCursor(incoming, page), position + |page.samples|)
  {
    AceCount(rows, incoming, page, position);
    hide Bucketed, BucketStart, AceCursor;
  }

  /** Where the server's own cursor stands: too early by what the incoming cursor had already counted in this bucket.
      The repair differs exactly then, and the server's cursor is the incoming one when the page was that long. */
  lemma AceLosesGround(rows: seq<Sample>, incoming: Option<Cursor>, page: Page, position: nat)
    requires Bucketed(rows) && Denotes(rows, incoming, position) && PageAt(rows, page, position)
    requires page.hasMore && page.samples != []
    ensures var ace, end := AceCursor(page), position + |page.samples|;
            var inside := incoming.Some? && incoming.value.timestamp == ace.timestamp && incoming.value.offset > 0;
            (RepairedCursor(incoming, page) == Some(ace) <==> !inside)
            && Position(rows, Some(ace)) == (if inside then end - incoming.value.offset else end)
            && (incoming == Some(ace) <==> inside && incoming.value.offset == |page.samples|)
  {
    AceCount(rows, incoming, page, position);
    hide Bucketed, BucketStart, AceCursor;
  }

  // -------------------------------------------------------------------- the walk

  function RowText(row: Sample): string { row.name + "@" + row.time }

  /** The size of a page and its end rows. */
  function PageFingerprint(page: Page): string
    requires page.samples != []
  {
    Decimal(|page.samples|) + "|" + (RowText(page.samples[0]) + "|" + RowText(page.samples[|page.samples| - 1]))
  }

  datatype Walk = Walk(pages: seq<Page>, next: Option<Cursor>, repeated: bool)

  /** The rows of consecutive pages. */
  function RowsOf(pages: seq<Page>): seq<Sample> {
    Flatten(seq(|pages|, i requires 0 <= i < |pages| => pages[i].samples))
  }

  /** Every page the server has from a position on, as the k-th and later pages of a walk of at most `maxPages`. */
  function PagesFrom(rows: seq<Sample>, position: nat, sizes: Sizes, k: nat, maxPages: Option<nat>): seq<Page>
    requires position <= |rows|
    decreases |rows| - position
  {
    var page := PageOfRows(rows, position, sizes(k));
    if !page.hasMore || page.samples == [] || (maxPages.Some? && k + 1 >= maxPages.value) then [page]
    else [page] + PagesFrom(rows, position + |page.samples|, sizes, k + 1, maxPages)
  }

  predicate SameFingerprint(a: Page, b: Page) {
    a.samples != [] && b.samples != [] && PageFingerprint(a) == PageFingerprint(b)
  }

  /** Page `i` looks like the one before it. */
  predicate LooksRepeated(pages: seq<Page>, i: int) {
    0 < i < |pages| && SameFingerprint(pages[i - 1], pages[i])
  }

  /** The walk has gone through these pages, and none of them looked repeated. */
  ghost predicate NoneRepeated(planned: seq<Page>, pages: seq<Page>) {
    pages <= planned && forall i | 0 <= i < |pages| :: !LooksRepeated(planned, i)
  }

  /** A walk returns the planned pages up to the first that looks like the one before it, or all of them. */
  ghost predicate Follows(planned: seq<Page>, walk: Walk) {
    NoneRepeated(planned, walk.pages)
    && if walk.repeated then LooksRepeated(planned, |walk.pages|) else walk.pages == planned
  }

  lemma FollowsTells(planned: seq<Page>, walk: Walk)
    requires Follows(planned, walk)
    ensures walk.repeated <==> exists i :: LooksRepeated(planned, i)
  {
  }

  /** One more page: either it looks like the last one, or the walk goes on. */
  lemma OneMorePage(planned: seq<Page>, pages: seq<Page>, page: Page)
    requires NoneRepeated(planned, pages) && pages + [page] <= planned
    ensures if pages != [] && SameFingerprint(pages[|pages| - 1], page)
            then Follows(planned, Walk(pages, None, true))
            else NoneRepeated(planned, pages + [page])
  {
    hide SameFingerprint;
    assert planned[|pages|] == page;
    assert pages != [] ==> planned[|pages| - 1] == pages[|pages| - 1];
  }

  lemma AllPages(planned: seq<Page>, pages: seq<Page>, next: Option<Cursor>)
    requires NoneRepeated(planned, pages) && pages == planned
    ensures Follows(planned, Walk(pages, next, false))
  {
  }

  /** Walks from a cursor to the end of the rows, or for `maxPages` pages. It stops at the first page that looks like
      the one before it, and at no other; otherwise it returns every page. `next` is the last page's repaired cursor,
      from which a caller can resume. */
  method IterateTimeseriesPages(rows: seq<Sample>, start: Option<Cursor>, sizes: Sizes, maxPages: Option<nat>)
    returns (walk: Walk)
    requires Bucketed(rows) && ServesRows(sizes)
    requires Position(rows, start) <= |rows| && Denotes(rows, start, Position(rows, start))
    ensures var planned := PagesFrom(rows, Position(rows, start), sizes, 0, maxPages);
            Follows(planned, walk) && (walk.repeated <==> exists i :: LooksRepeated(planned, i))
    ensures var reached := Position(rows, start) + |RowsOf(walk.pages)|;
            reached <= |rows| && RowsOf(walk.pages) == rows[Position(rows, start)..reached]
            && (!walk.repeated && walk.next.None? ==> reached == |rows|)
            && (walk.next.Some? ==> Denotes(rows, walk.next, reached))
            && (!walk.repeated && walk.next.Some? ==> maxPages.Some? && |walk.pages| == Max(1, maxPages.value))
    ensures maxPages.Some? ==> |walk.pages| <= Max(1, maxPages.value)
  {
    hide Bucketed, BucketStart, Denotes, Position, PageFingerprint, RowsOf, RepairedCursor, PagesFrom, ServesRows;
    hide PageOfRows, PageAt, NoneRepeated, Follows;
    PositionOf(rows, start);
    var cursor, fetchedPages: nat, previous: Option<Page> := start, 0, None;
    ghost var from: nat, position: nat := Position(rows, start), Position(rows, start);
    ghost var planned := PagesFrom(rows, from, sizes, 0, maxPages);
    var pages: seq<Page> := [];
    NoRows(rows, from);
    NoPagesRepeated(planned);
    assert [] + planned == planned;
    while true
      invariant from <= position <= |rows| && Denotes(rows, cursor, position)
      invariant RowsOf(pages) == rows[from..position] && |pages| == fetchedPages
      invariant planned == pages + PagesFrom(rows, position, sizes, fetchedPages, maxPages)
      invariant maxPages.Some? && fetchedPages > 0 ==> fetchedPages < maxPages.value
      invariant previous == if pages == [] then None else Some(pages[|pages| - 1])
      invariant previous.Some? ==> previous.value.samples != []
      invariant NoneRepeated(planned, pages)
      decreases |rows| - position
    {
      PositionOf(rows, cursor);
      Serves(sizes, fetchedPages);
      var page := GetPage(rows, cursor, sizes(fetchedPages));
      NextPage(rows, position, sizes, fetchedPages, maxPages);
      PageFits(rows, page, position);
      PlanGoesOn(planned, pages, page, PagesFrom(rows, position, sizes, fetchedPages, maxPages));
      OneMorePage(planned, pages, page);
      if |page.samples| > 0 {
        if previous.Some? && PageFingerprint(page) == PageFingerprint(previous.value) {
          walk := Walk(pages, None, true);
          FollowsTells(planned, walk);
          return;
        }
        previous := Some(page);
      }
      RowsMore(pages, page, rows, from, position);
      pages := pages + [page];
      fetchedPages := fetchedPages + 1;
      RepairEnds(cursor, page);
      if page.hasMore {
        RepairIsExact(rows, cursor, page, position);
      }
      if maxPages.Some? && fetchedPages >= maxPages.value {
        var resume := RepairTimeseriesCursor(cursor, page);
        walk := Walk(pages, resume, false);
        AllPages(planned, pages, resume);
        FollowsTells(planned, walk);
        return;
      }
      var nextCursor := RepairTimeseriesCursor(cursor, page);
      if nextCursor.None? {
        walk := Walk(pages, None, false);
        AllPages(planned, pages, None);
        FollowsTells(planned, walk);
        return;
      }
      position := position + |page.samples|;
      cursor := nextCursor;
    }
  }

  lemma NoPagesRepeated(planned: seq<Page>)
    ensures NoneRepeated(planned, [])
  {
  }

  lemma PlanGoesOn(planned: seq<Page>, pages: seq<Page>, page: Page, rest: seq<Page>)
    requires planned == pages + rest && rest != [] && rest[0] == page
    ensures planned == (pages + [page]) + rest[1..] && pages + [page] <= planned
  {
    assert rest == [page] + rest[1..];
  }

  lemma PositionOf(rows: seq<Sample>, cursor: Option<Cursor>)
    ensures forall position | Denotes(rows, cursor, position) :: position == Position(rows, cursor) <= |rows|
  {
  }

  lemma Serves(sizes: Sizes, k: nat)
    requires ServesRows(sizes)
    ensures sizes(k) > 0
  {
  }

  lemma PageFits(rows: seq<Sample>, page: Page, position: nat)
    requires PageAt(rows, page, position)
    ensures position + |page.samples| <= |rows| && page.samples == rows[position..position + |page.samples|]
    ensures page.hasMore == (position + |page.samples| < |rows|)
  {
  }

  lemma {:induction false} NextPage(rows: seq<Sample>, position: nat, sizes: Sizes, k: nat, maxPages: Option<nat>)
    requires position <= |rows| && sizes(k) > 0
    ensures var page := PageOfRows(rows, position, sizes(k));
            PagesFrom(rows, position, sizes, k, maxPages)
            == if !page.hasMore || (maxPages.Some? && k + 1 >= maxPages.value) then [page]
               else [page] + PagesFrom(rows, position + |page.samples|, sizes, k + 1, maxPages)
  {
  }

  lemma NoRows(rows: seq<Sample>, from: nat)
    requires from <= |rows|
    ensures RowsOf([]) == rows[from..from]
  {
  }

  lemma RepairEnds(cursor: Option<Cursor>, page: Page)
    ensures RepairedCursor(cursor, page).None? <==> !page.hasMore || page.samples == []
  {
  }

  lemma RowsSnoc(pages: seq<Page>, page: Page)
    ensures RowsOf(pages + [page]) == RowsOf(pages) + page.samples
  {
    var more := pages + [page];
    FlattenMore(seq(|pages|, i requires 0 <= i < |pages| => pages[i].samples), page.samples);
    assert seq(|more|, i requires 0 <= i < |more| => more[i].samples)
        == seq(|pages|, i requires 0 <= i < |pages| => pages[i].samples) + [page.samples];
  }

  lemma {:induction false} RowsMore(pages: seq<Page>, page: Page, rows: seq<Sample>, from: nat, position: nat)
    requires from <= position && position + |page.samples| <= |rows| && RowsOf(pages) == rows[from..position]
    requires page.samples == rows[position..position + |page.samples|]
    ensures RowsOf(pages + [page]) == rows[from..position + |page.samples|]
  {
    RowsSnoc(pages, page);
    hide RowsOf;
    JoinSlices(rows, from, position, position + |page.samples|);
  }

  // ----------------------------------------------------------------- false stalls

  /** Names and times that the fingerprint keeps apart. */
  predicate Separable(row: Sample) {
    '|' !in row.name && '|' !in row.time && '@' !in row.time
  }

  /** `(name, time)` is a reading's natural key. */
  ghost predicate NaturalKeys(rows: seq<Sample>) {
    forall i, j | 0 <= i < j < |rows| :: rows[i].name != rows[j].name || rows[i].time != rows[j].time
  }

  lemma NoBar(row: Sample)
    requires Separable(row)
    ensures '|' !in RowText(row)
  {
  }

  /** What a fingerprint is meant to tell: the number of rows, and the natural keys of the first and the last. */
  predicate SameEnds(a: Page, b: Page) {
    && a.samples != [] && |a.samples| == |b.samples|
    && var n := |a.samples| - 1;
       && a.samples[0].name == b.samples[0].name && a.samples[0].time == b.samples[0].time
       && a.samples[n].name == b.samples[n].name && a.samples[n].time == b.samples[n].time
  }

  /** Equal fingerprints then mean exactly that. */
  lemma FingerprintTells(a: Page, b: Page)
    requires (forall row | row in a.samples :: Separable(row)) && forall row | row in b.samples :: Separable(row)
    ensures SameFingerprint(a, b) <==> SameEnds(a, b)
  {
    if SameFingerprint(a, b) {
      var x, y, v, w := a.samples[0], b.samples[0], a.samples[|a.samples| - 1], b.samples[|b.samples| - 1];
      assert Separable(x) && Separable(y) && Separable(v) && Separable(w);
      NoBar(x);
      NoBar(y);
      assert !IsDigit('|');
      SplitsAtFirst(Decimal(|a.samples|), RowText(x) + "|" + RowText(v), Decimal(|b.samples|), RowText(y) + "|" + RowText(w), '|');
      ParseDecimal(|a.samples|);
      ParseDecimal(|b.samples|);
      SplitsAtFirst(RowText(x), RowText(v), RowText(y), RowText(w), '|');
      SplitsAtLast(x.name, x.time, y.name, y.time, '@');
      SplitsAtLast(v.name, v.time, w.name, w.time, '@');
    }
  }

  /** Of different rows the next page starts with another one. */
  lemma NewPageDiffers(rows: seq<Sample>, position: nat, size: nat, nextSize: nat)
    requires NaturalKeys(rows) && (forall row | row in rows :: Separable(row))
    requires 0 < size && position + size < |rows|
    ensures !SameFingerprint(PageOfRows(rows, position, size), PageOfRows(rows, position + size, nextSize))
  {
    hide Separable, PageFingerprint;
    var a, b := PageOfRows(rows, position, size), PageOfRows(rows, position + size, nextSize);
    assert forall row | row in a.samples :: row in rows;
    assert forall row | row in b.samples :: row in rows;
    assert a.samples[0] == rows[position];
    assert b.samples != [] ==> b.samples[0] == rows[position + size];
    if SameFingerprint(a, b) {
      FingerprintTells(a, b);
    }
  }

  /** A walk over rows with natural keys never stalls, when the names have no vertical bar and the times neither that
      nor an at sign. */
  lemma {:induction false} DistinctRowsNeverLookRepeated(rows: seq<Sample>, position: nat, sizes: Sizes, k: nat,
                                                         maxPages: Option<nat>, i: int)
    requires NaturalKeys(rows) && (forall row | row in rows :: Separable(row))
    requires ServesRows(sizes) && position <= |rows|
    ensures !LooksRepeated(PagesFrom(rows, position, sizes, k, maxPages), i)
    decreases |rows| - position
  {
    hide NaturalKeys, Separable, SameFingerprint, PagesFrom;
    NextPage(rows, position, sizes, k, maxPages);
    var page, pages := PageOfRows(rows, position, sizes(k)), PagesFrom(rows, position, sizes, k, maxPages);
    if 0 < i < |pages| {
      var later := position + |page.samples|;
      assert pages[1..] == PagesFrom(rows, later, sizes, k + 1, maxPages);
      DistinctRowsNeverLookRepeated(rows, later, sizes, k + 1, maxPages, i - 1);
      NextPage(rows, later, sizes, k + 1, maxPages);
      NewPageDiffers(rows, position, sizes(k), sizes(k + 1));
      assert pages[i - 1] == if i == 1 then page else pages[1..][i - 2];
      assert pages[i] == pages[1..][i - 1];
    }
  }

  /** Four readings of one time, with vertical bars in their names, served two by two. */
  const BARRED := [Sample("t", "p", 0), Sample("t", "q@t|r", 0), Sample("t", "p@t|q", 0), Sample("t", "r", 0)]
  const PAIRS: Sizes := k => 2

  lemma BarredRows()
    ensures Bucketed(BARRED) && ServesRows(PAIRS)
  {
  }

  lemma BarredKeys()
    ensures NaturalKeys(BARRED)
  {
    hide Bucketed, ServesRows;
    assert "p"[0] == 'p' && "r"[0] == 'r' && "q@t|r"[0] == 'q' && "p@t|q"[0] == 'p' && |"p@t|q"| == 5;
  }

  lemma BarredFingerprints()
    ensures SameFingerprint(Page(BARRED[..2], true), Page(BARRED[2..], false))
  {
    assert "p" + "@" + "t" + "|" + ("q@t|r" + "@" + "t") == "p@t|q@t|r@t";
    assert "p@t|q" + "@" + "t" + "|" + ("r" + "@" + "t") == "p@t|q@t|r@t";
  }

  /** The two pages differ, and look the same. */
  lemma BarredPagesLookAlike()
    ensures PagesFrom(BARRED, 0, PAIRS, 0, None) == [Page(BARRED[..2], true), Page(BARRED[2..], false)]
    ensures LooksRepeated(PagesFrom(BARRED, 0, PAIRS, 0, None), 1)
  {
    BarredFingerprints();
    hide PageFingerprint, PagesFrom, SameFingerprint;
    NextPage(BARRED, 0, PAIRS, 0, None);
    NextPage(BARRED, 2, PAIRS, 1, None);
    assert BARRED[0..2] == BARRED[..2] && BARRED[2..4] == BARRED[2..];
  }

  /** The server serves four different readings in two pages, and the walk reports a stall after the first. */
  method BarredWalkStalls() returns (walk: Walk)
    ensures NaturalKeys(BARRED) && walk.repeated && walk.pages == [Page(BARRED[..2], true)]
  {
    BarredRows();
    BarredKeys();
    BarredPagesLookAlike();
    hide PageFingerprint, PagesFrom, SameFingerprint, RowsOf, Bucketed, ServesRows;
    walk := IterateTimeseriesPages(BARRED, None, PAIRS, None);
  }
}
