/** `tail` over a JetStream stream: windows that double backwards until they hold enough. */
module NatsTail {
  import opened Wrappers
  import opened Records
  import opened NatsLog
  import opened NatsBroker

  /** Where a tail ends: before its cursor, or at the end of the stream. */
  function TailEnd(stream: Stream, beforeCursor: Option<nat>): nat {
    if beforeCursor.Some? then beforeCursor.value else stream.lastSequence + 1
  }

  /** Every match a tail could return. */
  function TailRange(stream: Stream, beforeCursor: Option<nat>, filters: Filters): seq<Message> {
    Filtered(stream.messages, stream.FirstAvailable(), TailEnd(stream, beforeCursor), filters)
  }

  predicate TailCursorRetained(stream: Stream, beforeCursor: Option<nat>) {
    beforeCursor.None? || |stream.messages| == 0 || beforeCursor.value >= stream.FirstAvailable()
  }

  /** A tail before a message is refused exactly once that message is gone, unless the whole stream is. */
  lemma TailRefusedExactlyWhenGone(was: Stream, k: nat, i: nat)
    requires was.Valid() && k <= |was.messages| && i < |was.messages|
    ensures !TailCursorRetained(Purged(was, k), Some(was.messages[i].sequence)) <==>
              k < |was.messages| && was.messages[i] !in Purged(was, k).messages
  {
    var now := Purged(was, k);
    forall j | 0 <= j < |now.messages| ensures now.messages[j] == was.messages[i] ==> i == k + j {
      assert now.messages[j] == was.messages[k + j];
    }
    if i >= k {
      assert now.messages[i - k] == was.messages[i];
    }
  }

  /** The page made of the records of a range, or of an end of the range with more than enough. */
  function TailPage(stream: Stream, beforeCursor: Option<nat>, limit: Option<nat>, fetched: seq<NatsRecord>): NatsPage {
    var records := if limit.None? then fetched else Last(fetched, limit.value);
    NatsPage(records,
             if records != [] then Some(records[0].cursor)
             else if beforeCursor.Some? || limit.None? then beforeCursor
             else Some(stream.FirstAvailable()),
             limit.Some? && |fetched| > limit.value)
  }

  // -------------------------------------------------------------- doubling spans

  function FirstSpan(limit: nat): nat {
    if 4 * (limit + 1) > DEFAULT_FETCH_BATCH_SIZE then 4 * (limit + 1) else DEFAULT_FETCH_BATCH_SIZE
  }

  /** Each span is twice the one before, and every one but the last was short of the whole range. */
  predicate Doubling(spans: seq<nat>, limit: nat, range: int) {
    spans != [] && spans[0] == FirstSpan(limit)
    && (forall i | 0 < i < |spans| :: spans[i] == 2 * spans[i - 1])
    && forall i | 0 <= i < |spans| - 1 :: spans[i] < range
  }

  function Sum(spans: seq<nat>): nat {
    if spans == [] then 0 else Sum(spans[..|spans| - 1]) + spans[|spans| - 1]
  }

  function Pow2(n: nat): nat {
    if n == 0 then 1 else 2 * Pow2(n - 1)
  }

  lemma {:induction false} DoublingSpans(spans: seq<nat>, limit: nat, range: int)
    requires Doubling(spans, limit, range)
    ensures spans[0] >= 1000 && spans[0] >= 4 * (limit + 1) && (spans[0] == 1000 || spans[0] == 4 * (limit + 1))
    ensures spans[|spans| - 1] == Pow2(|spans| - 1) * spans[0]
    ensures Sum(spans) + spans[0] == 2 * spans[|spans| - 1]
  {
    var n := |spans| - 1;
    if n == 0 {
      assert spans[..0] == [];
    } else {
      DoublingSpans(spans[..n], limit, range);
      assert spans[..n][n - 1] == spans[n - 1];
    }
  }

  /** The windows are logarithmically many, and all of them together span less than twice the last. */
  lemma {:induction false} WindowsAreFew(spans: seq<nat>, limit: nat, range: int)
    requires Doubling(spans, limit, range)
    ensures Sum(spans) < 2 * spans[|spans| - 1]
    ensures |spans| > 1 ==> Pow2(|spans| - 2) * 1000 < range
  {
    DoublingSpans(spans, limit, range);
    if |spans| > 1 {
      var n := |spans| - 1;
      assert Doubling(spans[..n], limit, range);
      DoublingSpans(spans[..n], limit, range);
      assert spans[..n][n - 1] == spans[n - 1];
      Scaled(Pow2(n - 1), 1000, spans[0]);
    }
  }

  lemma Scaled(a: nat, b: nat, c: nat)
    requires b <= c
    ensures a * b <= a * c
  {
  }

  function SpanStart(first: nat, end: nat, span: nat): (start: nat)
    ensures start >= first
  {
    if end > span && end - span > first then end - span else first
  }

  /** Fetches ever longer ends of the range until one holds enough, or is all of it. */
  method FetchEnd(stream: Stream, first: nat, end: nat, limit: nat, filters: Filters, decode: Decoder, prompt: bool)
    returns (fetched: Option<seq<NatsRecord>>, ghost start: nat, ghost got: nat, ghost spans: seq<nat>)
    requires stream.Valid() && limit > 0 && first < end
    ensures first <= start <= end && got <= |Filtered(stream.messages, start, end, filters)|
    ensures fetched == DecodeAll(Filtered(stream.messages, start, end, filters)[..got], decode)
    ensures prompt ==> fetched == DecodeAll(Filtered(stream.messages, start, end, filters), decode)
    ensures prompt && fetched.Some? ==> got == |Filtered(stream.messages, start, end, filters)|
    ensures fetched.Some? ==> |fetched.value| >= limit + 1 || start == first
    ensures Doubling(spans, limit, end - first)
    ensures var span := spans[|spans| - 1];
            start == if span < end - first then end - span else first
  {
    var target := limit + 1;
    var span: nat := FirstSpan(limit);
    var from := SpanStart(first, end, span);
    spans := [span];
    while true
      invariant span > 0 && from == SpanStart(first, end, span) && first <= from <= end
      invariant Doubling(spans, limit, end - first) && spans[|spans| - 1] == span
      decreases if span < end - first then end - first - span else 0
    {
      start := from;
      fetched, got := FetchWindow(stream, from, end, None, filters, decode, prompt);
      WholeWindow(stream, from, end, filters, decode, got);
      if fetched.None? {
        return;
      }
      if |fetched.value| >= target || from == first {
        break;
      }
      span := span * 2;
      from := SpanStart(first, end, span);
      spans := spans + [span];
    }
  }

  lemma {:induction false} WholeWindow(stream: Stream, start: nat, end: nat, filters: Filters, decode: Decoder,
                                       got: nat)
    requires got <= |Window(stream, start, end, None, filters)|
    ensures var all := Filtered(stream.messages, start, end, filters);
            Window(stream, start, end, None, filters) == all && all[..|all|] == all
            && (DecodeAll(all[..got], decode).None? ==> DecodeAll(all, decode).None?)
  {
    var all := Filtered(stream.messages, start, end, filters);
    DecodesWhenAllDo(all, decode);
    DecodesWhenAllDo(all[..got], decode);
  }

  /** What a tail answers with the first `got` messages of an end of its range: their page, or an error because they do
      not all decode. It goes back until it has more than the limit, or the whole range. */
  predicate AnswersFrom(stream: Stream, start: nat, got: nat, beforeCursor: Option<nat>, limit: Option<nat>,
                        filters: Filters, decode: Decoder, page: Result<NatsPage, NatsError>)
  {
    var first, part := stream.FirstAvailable(), Filtered(stream.messages, start, TailEnd(stream, beforeCursor), filters);
    first <= start && (limit.None? ==> start == first) && got <= |part|
    && var records := DecodeAll(part[..got], decode);
       if records.None? then page == Err(Undecodable)
       else page == Ok(TailPage(stream, beforeCursor, limit, records.value))
            && (start == first || (limit.Some? && got > limit.value))
  }

  /** `tail`, and the end of the range it settled for: a prompt consumer delivers all of that. */
  method Tail(stream: Option<Stream>, beforeCursor: Option<nat>, limit: Option<int>, filters: Filters, decode: Decoder,
              prompt: bool)
    returns (page: Result<NatsPage, NatsError>, ghost start: nat, ghost got: nat, ghost spans: seq<nat>)
    requires stream.Some? ==> stream.value.Valid()
    ensures (limit.Some? && limit.value <= 0) || stream.None? ==> page == Ok(NatsPage([], beforeCursor, false))
    ensures (limit.None? || limit.value > 0) && stream.Some? && !TailCursorRetained(stream.value, beforeCursor) ==>
              page == Err(CursorExpired)
    ensures (limit.None? || limit.value > 0) && stream.Some? && TailCursorRetained(stream.value, beforeCursor) ==>
              var first, end := stream.value.FirstAvailable(), TailEnd(stream.value, beforeCursor);
              if |stream.value.messages| == 0 || end <= first then page == Ok(NatsPage([], beforeCursor, false))
              else
                var bound: Option<nat> := if limit.None? then None else Some(limit.value);
                AnswersFrom(stream.value, start, got, beforeCursor, bound, filters, decode, page)
                && (prompt && page.Ok? ==> got == |Filtered(stream.value.messages, start, end, filters)|)
                && (prompt ==> WholePage(stream.value, beforeCursor, bound, filters, decode, page))
                && (bound.Some? ==> Doubling(spans, bound.value, end - first))
  {
    start, got, spans := 0, 0, [];
    if limit.Some? && limit.value <= 0 {
      page := Ok(NatsPage([], beforeCursor, false));
      return;
    }
    if stream.None? {
      page := Ok(NatsPage([], beforeCursor, false));
      return;
    }
    if !TailCursorRetained(stream.value, beforeCursor) {
      page := Err(CursorExpired);
      return;
    }
    var first, end := stream.value.FirstAvailable(), TailEnd(stream.value, beforeCursor);
    if |stream.value.messages| == 0 || end <= first {
      page := Ok(NatsPage([], beforeCursor, false));
      return;
    }
    hide AnswersFrom, WholePage, Doubling, Filtered;
    var bound: Option<nat> := if limit.None? then None else Some(limit.value);
    if limit.None? {
      start := first;
      page, got := TailAll(stream.value, beforeCursor, filters, decode, prompt);
    } else {
      page, start, got, spans := TailSome(stream.value, beforeCursor, limit.value, filters, decode, prompt);
    }
    if prompt {
      CompleteIsWhole(stream.value, start, got, beforeCursor, bound, filters, decode, page);
    }
  }

  /** Where the whole range decodes, the page is that of the whole range. */
  predicate WholePage(stream: Stream, beforeCursor: Option<nat>, limit: Option<nat>, filters: Filters, decode: Decoder,
                      page: Result<NatsPage, NatsError>)
  {
    var records := DecodeAll(TailRange(stream, beforeCursor, filters), decode);
    records.Some? ==> page == Ok(TailPage(stream, beforeCursor, limit, records.value))
  }

  method TailAll(stream: Stream, beforeCursor: Option<nat>, filters: Filters, decode: Decoder, prompt: bool)
    returns (page: Result<NatsPage, NatsError>, ghost got: nat)
    requires stream.Valid()
    ensures AnswersFrom(stream, stream.FirstAvailable(), got, beforeCursor, None, filters, decode, page)
    ensures prompt && page.Ok? ==> got == |TailRange(stream, beforeCursor, filters)|
  {
    hide DecodeAll, Window, Filtered;
    var first, end := stream.FirstAvailable(), TailEnd(stream, beforeCursor);
    var fetched;
    fetched, got := FetchWindow(stream, first, end, None, filters, decode, prompt);
    WholeWindow(stream, first, end, filters, decode, got);
    if fetched.None? {
      page := Err(Undecodable);
      return;
    }
    var cursor := if |fetched.value| > 0 then Some(fetched.value[0].cursor) else beforeCursor;
    page := Ok(NatsPage(fetched.value, cursor, false));
  }

  method TailSome(stream: Stream, beforeCursor: Option<nat>, limit: nat, filters: Filters, decode: Decoder,
                  prompt: bool)
    returns (page: Result<NatsPage, NatsError>, ghost start: nat, ghost got: nat, ghost spans: seq<nat>)
    requires stream.Valid() && limit > 0 && stream.FirstAvailable() < TailEnd(stream, beforeCursor)
    ensures AnswersFrom(stream, start, got, beforeCursor, Some(limit), filters, decode, page)
    ensures prompt && page.Ok? ==>
              got == |Filtered(stream.messages, start, TailEnd(stream, beforeCursor), filters)|
    ensures start <= TailEnd(stream, beforeCursor)
    ensures Doubling(spans, limit, TailEnd(stream, beforeCursor) - stream.FirstAvailable())
  {
    hide DecodeAll, Window, Filtered, Doubling;
    var first, end := stream.FirstAvailable(), TailEnd(stream, beforeCursor);
    var fetched;
    fetched, start, got, spans := FetchEnd(stream, first, end, limit, filters, decode, prompt);
    if fetched.None? {
      page := Err(Undecodable);
      return;
    }
    var hasMore := |fetched.value| > limit;
    var records := fetched.value[Max(0, |fetched.value| - limit)..];
    var cursor := if |records| > 0 then Some(records[0].cursor) else if beforeCursor.Some? then beforeCursor else Some(first);
    page := Ok(NatsPage(records, cursor, hasMore));
  }

  /** What came of an end of a range decodes to that part of the records of the range. */
  lemma PartOfRange(stream: Stream, first: nat, start: nat, end: nat, got: nat, filters: Filters, decode: Decoder)
    requires stream.Valid() && first <= start && got <= |Filtered(stream.messages, start, end, filters)|
    requires start == first || got > 0
    requires DecodeAll(Filtered(stream.messages, first, end, filters), decode).Some?
    ensures var all := Filtered(stream.messages, first, end, filters);
            var part := Filtered(stream.messages, start, end, filters);
            var lo := |all| - |part|;
            0 <= lo && part == all[lo..] && (start == first ==> lo == 0) && |DecodeAll(all, decode).value| == |all|
            && DecodeAll(part[..got], decode) == Some(DecodeAll(all, decode).value[lo..lo + got])
  {
    hide DecodeAll, Filtered, SubjectPasses;
    var all, part := Filtered(stream.messages, first, end, filters), Filtered(stream.messages, start, end, filters);
    if start != first {
      assert part[0] in part;
      FilteredHolds(stream.messages, start, end, filters);
      RangeSplits(stream.messages, first, start, end, filters);
    }
    var lo := |all| - |part|;
    DecodeSlice(all, decode, lo, lo + got);
    assert part == all[lo..] && part[..got] == all[lo..lo + got];
  }

  lemma LastEnds<T>(s: seq<T>, limit: nat)
    requires limit > 0 && s != []
    ensures Last(s, limit) != [] && Last(s, limit)[|Last(s, limit)| - 1] == s[|s| - 1]
  {
  }

  /** A tail is the page of the whole range exactly when all of the end it settled for had arrived: what a consumer that
      times out holds back are the newest matches. */
  lemma {:induction false} TailMissesExactlyWhenShort(stream: Stream, start: nat, got: nat, beforeCursor: Option<nat>,
                                                      limit: Option<nat>, filters: Filters, decode: Decoder,
                                                      page: Result<NatsPage, NatsError>)
    requires stream.Valid() && AnswersFrom(stream, start, got, beforeCursor, limit, filters, decode, page)
    requires (limit.Some? ==> limit.value > 0) && DecodeAll(TailRange(stream, beforeCursor, filters), decode).Some?
    ensures page.Ok?
    ensures WholePage(stream, beforeCursor, limit, filters, decode, page) <==>
            got == |Filtered(stream.messages, start, TailEnd(stream, beforeCursor), filters)|
  {
    hide DecodeAll, Filtered, SubjectPasses, Last;
    var first, end := stream.FirstAvailable(), TailEnd(stream, beforeCursor);
    var all, part := Filtered(stream.messages, first, end, filters), Filtered(stream.messages, start, end, filters);
    assert all == TailRange(stream, beforeCursor, filters);
    if got == 0 {
      NothingDecodes(decode);
      assert part[..0] == [];
    }
    PartOfRange(stream, first, start, end, got, filters, decode);
    var lo := |all| - |part|;
    var records := DecodeAll(all, decode).value;
    if got == |part| {
      assert lo + got == |records|;
      assert records[lo..|records|] == records[lo..];
      if limit.Some? {
        EnoughAtTheEnd(records, records[lo..], limit.value);
      }
    } else {
      FilteredNumbered(stream.messages, first, end, filters);
      NewestDiffers(all, lo + got, decode);
      if limit.Some? {
        LastEnds(records, limit.value);
        if got > 0 {
          LastEnds(records[lo..lo + got], limit.value);
        } else {
          LastOfNone<NatsRecord>(limit.value);
          assert records[lo..lo + got] == [];
        }
      }
    }
  }

  lemma NothingDecodes(decode: Decoder)
    ensures DecodeAll([], decode) == Some([])
  {
  }

  lemma LastOfNone<T>(limit: nat)
    ensures Last<T>([], limit) == []
  {
  }

  /** The newest record of a range is not an earlier one. */
  lemma NewestDiffers(all: seq<Message>, k: nat, decode: Decoder)
    requires DecodeAll(all, decode).Some? && Numbered(all) && k < |all|
    ensures var records := DecodeAll(all, decode).value;
            k > 0 ==> records[k - 1] != records[|all| - 1]
  {
    hide DecodeAll;
    if k > 0 {
      DecodeAt(all, decode, k - 1);
      DecodeAt(all, decode, |all| - 1);
    }
  }

  /** What lies before a cursor: the messages numbered below it that pass the filters. */
  predicate IsEarlier(m: Message, beforeCursor: Option<nat>, filters: Filters) {
    (beforeCursor.Some? ==> m.sequence < beforeCursor.value) && SubjectPasses(m, filters)
  }

  function Earlier(messages: seq<Message>, beforeCursor: Option<nat>, filters: Filters): seq<Message> {
    if messages == [] then []
    else
      var n := |messages| - 1;
      Earlier(messages[..n], beforeCursor, filters) + if IsEarlier(messages[n], beforeCursor, filters) then [messages[n]] else []
  }

  lemma {:induction false} RangeIsEarlier(messages: seq<Message>, lo: nat, hi: nat, beforeCursor: Option<nat>,
                                          filters: Filters)
    requires forall m | m in messages :: Inside(m, lo, hi, filters) <==> IsEarlier(m, beforeCursor, filters)
    ensures Filtered(messages, lo, hi, filters) == Earlier(messages, beforeCursor, filters)
  {
    hide Inside, IsEarlier;
    if messages != [] {
      RangeIsEarlier(messages[..|messages| - 1], lo, hi, beforeCursor, filters);
    }
  }

  /** A tail ranges over exactly what lies before its cursor. */
  lemma TailsTheEarlier(stream: Stream, beforeCursor: Option<nat>, filters: Filters)
    requires stream.Valid()
    ensures TailRange(stream, beforeCursor, filters) == Earlier(stream.messages, beforeCursor, filters)
  {
    hide SubjectPasses;
    forall m | m in stream.messages
      ensures Inside(m, stream.FirstAvailable(), TailEnd(stream, beforeCursor), filters) <==>
              IsEarlier(m, beforeCursor, filters)
    {
      var k :| 0 <= k < |stream.messages| && stream.messages[k] == m;
    }
    RangeIsEarlier(stream.messages, stream.FirstAvailable(), TailEnd(stream, beforeCursor), beforeCursor, filters);
  }

  /** A whole page holds the last `limit` matches before the cursor and says whether there are more; its own cursor lies
      behind exactly the others. */
  lemma WholePageIsExact(stream: Stream, beforeCursor: Option<nat>, limit: Option<nat>, filters: Filters,
                         decode: Decoder, page: Result<NatsPage, NatsError>)
    requires stream.Valid() && WholePage(stream, beforeCursor, limit, filters, decode, page)
    requires (limit.Some? ==> limit.value > 0) && DecodeAll(TailRange(stream, beforeCursor, filters), decode).Some?
    ensures var all := Earlier(stream.messages, beforeCursor, filters);
            && page.Ok? && (page.value.hasMore <==> limit.Some? && |all| > limit.value)
            && var lo := if page.value.hasMore then |all| - limit.value else 0;
               && Some(page.value.records) == DecodeAll(all[lo..], decode)
               && (all != [] ==> page.value.cursor == Some(all[lo].sequence))
  {
    hide DecodeAll, TailRange, Earlier;
    TailsTheEarlier(stream, beforeCursor, filters);
    var all := Earlier(stream.messages, beforeCursor, filters);
    var lo := if limit.Some? && |all| > limit.value then |all| - limit.value else 0;
    DecodeSlice(all, decode, lo, |all|);
    var records := DecodeAll(all, decode).value;
    assert all[lo..|all|] == all[lo..] && records[lo..|all|] == records[lo..] && records[0..] == records;
    if all != [] {
      DecodeAt(all, decode, lo);
    }
  }

  /** With everything there the page is whole. */
  lemma CompleteIsWhole(stream: Stream, start: nat, got: nat, beforeCursor: Option<nat>, limit: Option<nat>,
                        filters: Filters, decode: Decoder, page: Result<NatsPage, NatsError>)
    requires stream.Valid() && AnswersFrom(stream, start, got, beforeCursor, limit, filters, decode, page)
    requires limit.Some? ==> limit.value > 0
    requires page.Ok? ==> got == |Filtered(stream.messages, start, TailEnd(stream, beforeCursor), filters)|
    ensures WholePage(stream, beforeCursor, limit, filters, decode, page)
  {
    if DecodeAll(TailRange(stream, beforeCursor, filters), decode).Some? {
      hide *;
      TailMissesExactlyWhenShort(stream, start, got, beforeCursor, limit, filters, decode, page);
    }
  }

  /** More than enough at the end decides the page. */
  lemma EnoughAtTheEnd<T>(all: seq<T>, part: seq<T>, limit: nat)
    requires |part| <= |all| && part == all[|all| - |part|..]
    requires |part| > limit || part == all
    ensures Last(all, limit) == Last(part, limit) && (|all| > limit <==> |part| > limit)
  {
  }

  // ------------------------------------------------------------------- the chain

  lemma RangeDecodes(stream: Stream, beforeCursor: Option<nat>, filters: Filters, decode: Decoder)
    requires AllDecode(stream, decode)
    ensures DecodeAll(TailRange(stream, beforeCursor, filters), decode).Some?
  {
    FilteredHolds(stream.messages, stream.FirstAvailable(), TailEnd(stream, beforeCursor), filters);
    DecodesWhenAllDo(TailRange(stream, beforeCursor, filters), decode);
  }

  /** The page of a prompt tail. */
  function PromptTail(stream: Stream, beforeCursor: Option<nat>, limit: nat, filters: Filters,
                      decode: Decoder): NatsPage
    requires AllDecode(stream, decode)
  {
    RangeDecodes(stream, beforeCursor, filters, decode);
    TailPage(stream, beforeCursor, Some(limit), DecodeAll(TailRange(stream, beforeCursor, filters), decode).value)
  }

  /** The parts of a page of more records than the limit, and of one of fewer. */
  lemma TailParts(stream: Stream, beforeCursor: Option<nat>, limit: nat, filters: Filters, decode: Decoder)
    requires AllDecode(stream, decode) && limit > 0
    ensures var page, all := PromptTail(stream, beforeCursor, limit, filters, decode), TailRange(stream, beforeCursor, filters);
            (page.hasMore <==> |all| > limit)
            && (page.hasMore ==> Some(page.records) == DecodeAll(all[|all| - limit..], decode)
                                 && page.cursor == Some(all[|all| - limit].sequence))
            && (!page.hasMore ==> Some(page.records) == DecodeAll(all, decode))
  {
    hide DecodeAll, TailRange, AllDecode;
    var all := TailRange(stream, beforeCursor, filters);
    RangeDecodes(stream, beforeCursor, filters, decode);
    if |all| > limit {
      var k := |all| - limit;
      DecodeAt(all, decode, k);
      DecodeSlice(all, decode, k, |all|);
      assert all[k..|all|] == all[k..];
      var records := DecodeAll(all, decode).value;
      assert records[k..|all|] == records[k..];
    }
  }

  /** A page that says there is more leaves exactly what lies before its cursor. */
  lemma TailLeavesTheRest(stream: Stream, beforeCursor: Option<nat>, limit: nat, filters: Filters, decode: Decoder)
    requires stream.Valid() && AllDecode(stream, decode) && limit > 0
    ensures var page, all := PromptTail(stream, beforeCursor, limit, filters, decode), TailRange(stream, beforeCursor, filters);
            (page.hasMore <==> |all| > limit)
            && (page.hasMore ==>
                  Some(page.records) == DecodeAll(all[|all| - limit..], decode)
                  && page.cursor.Some? && TailRange(stream, page.cursor, filters) == all[..|all| - limit]
                  && page.cursor.value < TailEnd(stream, beforeCursor))
            && (!page.hasMore ==> Some(page.records) == DecodeAll(all, decode))
  {
    hide DecodeAll, Filtered, SubjectPasses, AllDecode, PromptTail;
    TailParts(stream, beforeCursor, limit, filters, decode);
    var all := TailRange(stream, beforeCursor, filters);
    if |all| > limit {
      MatchesBefore(stream.messages, stream.FirstAvailable(), TailEnd(stream, beforeCursor), filters, |all| - limit);
    }
  }

  /** Tails of a fixed stream, each before the cursor of the one before, until one says there is no more. */
  ghost function TailChain(stream: Stream, beforeCursor: Option<nat>, limit: nat, filters: Filters, decode: Decoder)
    : seq<NatsRecord>
    requires stream.Valid() && AllDecode(stream, decode) && limit > 0
    decreases TailEnd(stream, beforeCursor)
  {
    var page := PromptTail(stream, beforeCursor, limit, filters, decode);
    TailLeavesTheRest(stream, beforeCursor, limit, filters, decode);
    if page.hasMore then TailChain(stream, page.cursor, limit, filters, decode) + page.records else page.records
  }

  /** A chain of tails returns the record of every match before its start once, in order. */
  lemma {:induction false} TailChainIsComplete(stream: Stream, beforeCursor: Option<nat>, limit: nat, filters: Filters,
                                               decode: Decoder)
    requires stream.Valid() && AllDecode(stream, decode) && limit > 0
    ensures Some(TailChain(stream, beforeCursor, limit, filters, decode))
         == DecodeAll(Earlier(stream.messages, beforeCursor, filters), decode)
    decreases TailEnd(stream, beforeCursor)
  {
    hide DecodeAll, TailRange, Earlier, PromptTail, AllDecode;
    TailsTheEarlier(stream, beforeCursor, filters);
    var page, all := PromptTail(stream, beforeCursor, limit, filters, decode), TailRange(stream, beforeCursor, filters);
    TailLeavesTheRest(stream, beforeCursor, limit, filters, decode);
    if page.hasMore {
      TailChainIsComplete(stream, page.cursor, limit, filters, decode);
      TailsTheEarlier(stream, page.cursor, filters);
      DecodeJoins(all, decode, |all| - limit);
    }
  }
}
