/** Bounded reads of a JetStream stream: windows of a filtered consumer, `read` forward and `tail` backward. */
module NatsBroker {
  import opened Wrappers
  import opened Records
  import opened NatsLog

  datatype NatsRecord = NatsRecord(cursor: nat, content: Content)

  datatype NatsPage = NatsPage(records: seq<NatsRecord>, cursor: Option<nat>, hasMore: bool)

  datatype NatsError = CursorExpired | Undecodable

  const DEFAULT_FETCH_BATCH_SIZE := 1_000

  /** The records of a list of messages, unless one does not decode. */
  function DecodeAll(messages: seq<Message>, decode: Decoder): (records: Option<seq<NatsRecord>>)
    ensures records.Some? ==> |records.value| == |messages|
  {
    if messages == [] then Some([])
    else
      var last := messages[|messages| - 1];
      var before, content := DecodeAll(messages[..|messages| - 1], decode), decode(last.data);
      if before.None? || content.None? then None
      else Some(before.value + [NatsRecord(last.sequence, content.value)])
  }

  lemma {:induction false} DecodesWhenAllDo(messages: seq<Message>, decode: Decoder)
    ensures DecodeAll(messages, decode).Some? <==> forall m | m in messages :: decode(m.data).Some?
  {
    if messages != [] {
      var n := |messages| - 1;
      DecodesWhenAllDo(messages[..n], decode);
      assert messages == messages[..n] + [messages[n]];
    }
  }

  lemma {:induction false} DecodeAt(messages: seq<Message>, decode: Decoder, i: nat)
    requires DecodeAll(messages, decode).Some? && i < |messages|
    ensures decode(messages[i].data).Some?
    ensures DecodeAll(messages, decode).value[i] == NatsRecord(messages[i].sequence, decode(messages[i].data).value)
  {
    if i < |messages| - 1 {
      DecodeAt(messages[..|messages| - 1], decode, i);
    }
  }

  lemma {:induction false} PartDecodes(messages: seq<Message>, decode: Decoder, lo: nat, hi: nat)
    requires DecodeAll(messages, decode).Some? && lo <= hi <= |messages|
    ensures DecodeAll(messages[lo..hi], decode).Some?
  {
    hide DecodeAll;
    var part := messages[lo..hi];
    forall m | m in part ensures decode(m.data).Some? {
      var i: nat :| i < |part| && part[i] == m;
      DecodeAt(messages, decode, lo + i);
    }
    DecodesWhenAllDo(part, decode);
  }

  /** Decoding a part gives that part of the records. */
  lemma {:induction false} DecodeSlice(messages: seq<Message>, decode: Decoder, lo: nat, hi: nat)
    requires DecodeAll(messages, decode).Some? && lo <= hi <= |messages|
    ensures DecodeAll(messages[lo..hi], decode) == Some(DecodeAll(messages, decode).value[lo..hi])
  {
    hide DecodeAll;
    var part := messages[lo..hi];
    PartDecodes(messages, decode, lo, hi);
    var some, all := DecodeAll(part, decode).value, DecodeAll(messages, decode).value;
    forall i | 0 <= i < |part| ensures some[i] == all[lo + i] {
      DecodeAt(part, decode, i);
      DecodeAt(messages, decode, lo + i);
    }
    assert some == all[lo..hi];
  }

  function First<T>(s: seq<T>, limit: Option<nat>): seq<T> {
    if limit.Some? && |s| > limit.value then s[..limit.value] else s
  }

  lemma FirstIsPrefix<T>(s: seq<T>, limit: Option<nat>, k: nat)
    requires k <= |First(s, limit)|
    ensures k <= |s| && First(s, limit)[..k] == s[..k]
  {
  }

  lemma PrefixOfPrefix<T>(s: seq<T>, got: nat, kept: nat)
    requires kept <= got <= |s|
    ensures s[..got][0..kept] == s[..kept] && s[..got][..kept] == s[..kept]
  {
  }

  function Last<T>(s: seq<T>, limit: nat): seq<T> {
    if |s| > limit then s[|s| - limit..] else s
  }

  // ------------------------------------------------------------------- a window

  /** A consumer over the matching messages from a number on. A prompt one delivers all it is asked for; another may
      time out with less. */
  class OrderedConsumer {
    const matches: seq<Message>
    const prompt: bool
    var next: nat

    constructor (matches: seq<Message>, prompt: bool)
      ensures next == 0 && this.matches == matches && this.prompt == prompt
    {
      this.matches, this.prompt, next := matches, prompt, 0;
    }

    method Fetch(maxMessages: nat) returns (batch: seq<Message>)
      requires next <= |matches|
      modifies this
      ensures next == old(next) + |batch| <= |matches|
      ensures batch == matches[old(next)..next] && |batch| <= maxMessages
      ensures prompt ==> |batch| == Min(maxMessages, |matches| - old(next))
    {
      var available: nat := if maxMessages <= |matches| - next then maxMessages else |matches| - next;
      var k: nat :| k <= available && (prompt ==> k == available);
      batch := matches[next..next + k];
      next := next + k;
    }
  }

  /** What a window is to hold: the first matches of its range. */
  function Window(stream: Stream, start: nat, end: nat, maxRecords: Option<nat>, filters: Filters): seq<Message> {
    First(Filtered(stream.messages, start, end, filters), maxRecords)
  }

  /** Every match from `start` on; none lies beyond the last number given out. */
  function FromStart(stream: Stream, start: nat, end: nat, filters: Filters): seq<Message> {
    Filtered(stream.messages, start, if end <= stream.lastSequence then stream.lastSequence + 1 else end, filters)
  }

  /** The matches before the end come first. */
  lemma {:induction false} EndCuts(stream: Stream, start: nat, end: nat, filters: Filters)
    requires stream.Valid()
    ensures var all, inside := FromStart(stream, start, end, filters), Filtered(stream.messages, start, end, filters);
            inside <= all && (forall i | 0 <= i < |inside| :: all[i].sequence < end)
            && forall i | |inside| <= i < |all| :: all[i].sequence >= end
  {
    hide SubjectPasses, Filtered;
    var hi := if end <= stream.lastSequence then stream.lastSequence + 1 else end;
    var all, inside := FromStart(stream, start, end, filters), Filtered(stream.messages, start, end, filters);
    FilteredHolds(stream.messages, start, end, filters);
    FilteredHolds(stream.messages, start, hi, filters);
    FilteredHolds(stream.messages, end, hi, filters);
    if start <= end {
      RangeSplits(stream.messages, start, end, hi, filters);
      var later := Filtered(stream.messages, end, hi, filters);
      assert forall i | 0 <= i < |inside| :: all[i] == inside[i] && inside[i] in inside;
      assert forall i | |inside| <= i < |all| :: all[i] == later[i - |inside|] && later[i - |inside|] in later;
    } else {
      NothingInside(stream.messages, start, end, filters);
      assert forall i | 0 <= i < |all| :: all[i] in all;
    }
  }

  /** The first k matches have been read. */
  ghost predicate Taken(records: seq<NatsRecord>, all: seq<Message>, decode: Decoder) {
    |records| <= |all| && DecodeAll(all[..|records|], decode) == Some(records)
  }

  lemma TakeOne(records: seq<NatsRecord>, all: seq<Message>, decode: Decoder)
    requires Taken(records, all, decode) && |records| < |all|
    ensures var m := all[|records|];
            if decode(m.data).None? then DecodeAll(all[..|records| + 1], decode).None?
            else Taken(records + [NatsRecord(m.sequence, decode(m.data).value)], all, decode)
  {
    var upTo := all[..|records| + 1];
    assert upTo[..|upTo| - 1] == all[..|records|];
  }

  predicate Enough(records: seq<NatsRecord>, maxRecords: Option<nat>) {
    maxRecords.Some? && |records| >= maxRecords.value
  }

  /** Reads one delivered batch: stops at the end of the range, at the last match, or with enough records. */
  method ConsumeBatch(ghost all: seq<Message>, ghost inside: nat, batch: seq<Message>, pendingBefore: nat, end: nat,
                      maxRecords: Option<nat>, decode: Decoder, before: seq<NatsRecord>)
    returns (records: seq<NatsRecord>, received: nat, pending: nat, reachedEnd: bool, failed: bool)
    requires Taken(before, all, decode) && |before| <= inside <= |all| && !Enough(before, maxRecords)
    requires |before| + |batch| <= |all| && batch == all[|before|..|before| + |batch|] && pendingBefore == |all| - |before|
    requires (forall i | 0 <= i < inside :: all[i].sequence < end) && forall i | inside <= i < |all| :: all[i].sequence >= end
    ensures Taken(records, all, decode) && |before| <= |records| <= inside
    ensures maxRecords.Some? ==> |records| <= maxRecords.value
    ensures failed ==> |records| < inside && !Enough(records, maxRecords) && DecodeAll(all[..|records| + 1], decode).None?
    ensures reachedEnd ==> |records| == inside
    ensures !failed && !reachedEnd ==> |records| == |before| + received && pending == |all| - |records|
    ensures received <= |batch|
    ensures !failed && !reachedEnd ==> received == |batch| || pending == 0 || Enough(records, maxRecords)
  {
    hide Taken, DecodeAll;
    records, received, pending, reachedEnd, failed := before, 0, pendingBefore, false, false;
    for i := 0 to |batch|
      invariant Taken(records, all, decode) && |records| == |before| + i <= inside
      invariant received == i && pending == |all| - |records| && !reachedEnd && !failed
      invariant !Enough(records, maxRecords)
    {
      var msg := batch[i];
      assert msg == all[|records|];
      TakeOne(records, all, decode);
      received := received + 1;
      pending := pending - 1;
      if msg.sequence >= end {
        reachedEnd := true;
        return;
      }
      var content := decode(msg.data);
      if content.None? {
        failed := true;
        return;
      }
      records := records + [NatsRecord(msg.sequence, content.value)];
      if pending == 0 || Enough(records, maxRecords) {
        return;
      }
    }
  }

  /** A list decodes only when every part of it does, and its whole part is itself. */
  lemma PartFails(messages: seq<Message>, decode: Decoder, k: nat)
    requires k <= |messages|
    ensures DecodeAll(messages[..k], decode).None? ==> DecodeAll(messages, decode).None?
    ensures k == |messages| ==> messages[..k] == messages
  {
    if DecodeAll(messages, decode).Some? {
      DecodeSlice(messages, decode, 0, k);
      assert messages[0..k] == messages[..k];
    }
  }

  /** The first `got` messages of the window, read batch by batch; all of it from a prompt consumer. */
  method FetchWindow(stream: Stream, start: nat, end: nat, maxRecords: Option<nat>, filters: Filters, decode: Decoder,
                     prompt: bool)
    returns (fetched: Option<seq<NatsRecord>>, ghost got: nat)
    requires stream.Valid()
    ensures got <= |Window(stream, start, end, maxRecords, filters)|
    ensures fetched == DecodeAll(Window(stream, start, end, maxRecords, filters)[..got], decode)
    ensures prompt && fetched.Some? ==> got == |Window(stream, start, end, maxRecords, filters)|
    ensures prompt ==> fetched == DecodeAll(Window(stream, start, end, maxRecords, filters), decode)
  {
    hide Taken, DecodeAll, Filtered;
    var consumer := new OrderedConsumer(FromStart(stream, start, end, filters), prompt);
    ghost var all := consumer.matches;
    ghost var inside := |Filtered(stream.messages, start, end, filters)|;
    EndCuts(stream, start, end, filters);
    hide FromStart;
    var records: seq<NatsRecord> := [];
    var pending, reachedEnd: bool := |consumer.matches|, false;
    NothingTaken(all, decode);
    while pending > 0 && !reachedEnd && !Enough(records, maxRecords)
      invariant Taken(records, all, decode) && |records| <= inside
      invariant maxRecords.Some? ==> |records| <= maxRecords.value
      invariant reachedEnd ==> |records| == inside
      invariant !reachedEnd ==> consumer.next == |records| && pending == |all| - |records|
      decreases |all| - |records|, !reachedEnd
    {
      var remaining := if maxRecords.None? then DEFAULT_FETCH_BATCH_SIZE
                       else Min(DEFAULT_FETCH_BATCH_SIZE, maxRecords.value - |records|);
      var requested := Min(remaining, pending);
      var batch := consumer.Fetch(requested);
      var received, failed;
      ghost var before := records;
      records, received, pending, reachedEnd, failed :=
        ConsumeBatch(all, inside, batch, pending, end, maxRecords, decode, records);
      if failed {
        got := |records| + 1;
        WindowPrefix(stream, start, end, maxRecords, filters, got);
        PartFails(Window(stream, start, end, maxRecords, filters), decode, got);
        return None, got;
      }
      if received == 0 || received < requested || Enough(records, maxRecords) {
        break;
      }
    }
    got := |records|;
    WindowPrefix(stream, start, end, maxRecords, filters, got);
    PartFails(Window(stream, start, end, maxRecords, filters), decode, got);
    TakenIs(records, all, decode);
    fetched := Some(records);
  }

  lemma NothingTaken(all: seq<Message>, decode: Decoder)
    ensures Taken([], all, decode)
  {
    assert all[..0] == [];
  }

  lemma TakenIs(records: seq<NatsRecord>, all: seq<Message>, decode: Decoder)
    requires Taken(records, all, decode)
    ensures DecodeAll(all[..|records|], decode) == Some(records)
  {
  }

  lemma {:induction false} WindowPrefix(stream: Stream, start: nat, end: nat, maxRecords: Option<nat>,
                                        filters: Filters, k: nat)
    requires stream.Valid() && k <= |Filtered(stream.messages, start, end, filters)|
    requires maxRecords.Some? ==> k <= maxRecords.value
    ensures k <= |Window(stream, start, end, maxRecords, filters)| <= |FromStart(stream, start, end, filters)|
    ensures Window(stream, start, end, maxRecords, filters)[..k] == FromStart(stream, start, end, filters)[..k]
  {
    hide Filtered;
    EndCuts(stream, start, end, filters);
  }

  // ------------------------------------------------------------------------ read

  function MaxCursor(first: Option<nat>, second: nat): nat {
    if first.None? then second else if first.value >= second then first.value else second
  }

  /** The next number after a cursor is still there to read. */
  predicate CursorRetained(stream: Stream, afterCursor: Option<nat>) {
    afterCursor.None? || afterCursor.value + 1 >= stream.FirstAvailable()
  }

  /** What is left of a stream when its k oldest messages are gone. */
  function Purged(was: Stream, k: nat): Stream
    requires k <= |was.messages|
  {
    Stream(was.messages[k..], was.lastSequence)
  }

  /** No number between the first message and the last one given out is missing. */
  ghost predicate Dense(stream: Stream) {
    forall i | 0 <= i < |stream.messages| :: stream.messages[i].sequence == stream.lastSequence + 1 - |stream.messages| + i
  }

  /** An accepted cursor has lost nothing to a purge; one that a purge of a dense stream made refused has. */
  lemma RefusedExactlyWhenOneIsLost(was: Stream, k: nat, cursor: nat)
    requires was.Valid() && k <= |was.messages|
    ensures CursorRetained(Purged(was, k), Some(cursor)) ==>
              forall m | m in was.messages && cursor < m.sequence :: m in Purged(was, k).messages
    ensures Dense(was) && CursorRetained(was, Some(cursor)) && !CursorRetained(Purged(was, k), Some(cursor)) ==>
              exists m :: m in was.messages && cursor < m.sequence && m !in Purged(was, k).messages
  {
    var now := Purged(was, k);
    if CursorRetained(now, Some(cursor)) {
      forall i | 0 <= i < |was.messages| && cursor < was.messages[i].sequence ensures was.messages[i] in now.messages {
        assert was.messages[i] in was.messages;
        assert k < |was.messages| ==> !(was.messages[i].sequence < was.messages[k].sequence);
        assert i >= k ==> now.messages[i - k] == was.messages[i];
      }
    } else if Dense(was) && CursorRetained(was, Some(cursor)) {
      var m := was.messages[k - 1];
      assert m in was.messages && cursor < m.sequence;
      forall j | 0 <= j < |now.messages| ensures now.messages[j] != m {
        assert now.messages[j] == was.messages[k + j];
      }
    }
  }

  function ReadStart(stream: Stream, afterCursor: Option<nat>): nat {
    if afterCursor.None? then stream.FirstAvailable() else afterCursor.value + 1
  }

  /** What a read of the window asks for: one more than the limit. */
  function ReadWindow(stream: Stream, afterCursor: Option<nat>, limit: Option<nat>, filters: Filters): seq<Message> {
    Window(stream, ReadStart(stream, afterCursor), stream.lastSequence + 1,
           if limit.None? then None else Some(limit.value + 1), filters)
  }

  /** The page made of what was fetched. */
  function ReadPage(stream: Stream, afterCursor: Option<nat>, limit: Option<nat>, fetched: seq<NatsRecord>): NatsPage
    requires limit.Some? ==> limit.value > 0
  {
    var records := First(fetched, limit);
    var hasMore := limit.Some? && |fetched| > limit.value;
    NatsPage(records, Some(if hasMore then records[|records| - 1].cursor else MaxCursor(afterCursor, stream.lastSequence)),
             hasMore)
  }

  method Read(stream: Option<Stream>, afterCursor: Option<nat>, limit: Option<int>, filters: Filters, decode: Decoder,
              prompt: bool)
    returns (page: Result<NatsPage, NatsError>, ghost got: nat)
    requires stream.Some? ==> stream.value.Valid()
    ensures (limit.Some? && limit.value <= 0) || stream.None? ==> page == Ok(NatsPage([], afterCursor, false))
    ensures (limit.None? || limit.value > 0) && stream.Some? && !CursorRetained(stream.value, afterCursor) ==>
              page == Err(CursorExpired)
    ensures (limit.None? || limit.value > 0) && stream.Some? && CursorRetained(stream.value, afterCursor) ==>
              if |stream.value.messages| == 0 then page == Ok(NatsPage([], afterCursor, false))
              else
                var bound: Option<nat> := if limit.None? then None else Some(limit.value);
                var window := ReadWindow(stream.value, afterCursor, bound, filters);
                got <= |window| && (prompt && page.Ok? ==> got == |window|)
                && page == if DecodeAll(window[..got], decode).None? then Err(Undecodable)
                           else Ok(ReadPage(stream.value, afterCursor, bound, DecodeAll(window[..got], decode).value))
  {
    got := 0;
    if limit.Some? && limit.value <= 0 {
      return Ok(NatsPage([], afterCursor, false)), 0;
    }
    if stream.None? {
      return Ok(NatsPage([], afterCursor, false)), 0;
    }
    if afterCursor.Some? && afterCursor.value + 1 < stream.value.FirstAvailable() {
      return Err(CursorExpired), 0;
    }
    if |stream.value.messages| == 0 {
      return Ok(NatsPage([], afterCursor, false)), 0;
    }
    var bound: Option<nat> := if limit.None? then None else Some(limit.value);
    page, got := ReadExisting(stream.value, afterCursor, bound, filters, decode, prompt);
  }

  method ReadExisting(stream: Stream, afterCursor: Option<nat>, limit: Option<nat>, filters: Filters, decode: Decoder,
                      prompt: bool)
    returns (page: Result<NatsPage, NatsError>, ghost got: nat)
    requires stream.Valid() && (limit.Some? ==> limit.value > 0)
    ensures var window := ReadWindow(stream, afterCursor, limit, filters);
            got <= |window| && (prompt && page.Ok? ==> got == |window|)
            && page == if DecodeAll(window[..got], decode).None? then Err(Undecodable)
                       else Ok(ReadPage(stream, afterCursor, limit, DecodeAll(window[..got], decode).value))
  {
    hide DecodeAll, Window;
    var requested: Option<nat> := if limit.None? then None else Some(limit.value + 1);
    var fetched;
    fetched, got := FetchWindow(stream, ReadStart(stream, afterCursor), stream.lastSequence + 1, requested, filters, decode,
                                prompt);
    if fetched.None? {
      return Err(Undecodable), got;
    }
    var hasMore := limit.Some? && |fetched.value| > limit.value;
    var records := if hasMore then fetched.value[..limit.value] else fetched.value;
    var cursor := if hasMore then records[|records| - 1].cursor else MaxCursor(afterCursor, stream.lastSequence);
    page := Ok(NatsPage(records, Some(cursor), hasMore));
  }

  /** The parts of a page, by how much of its window was fetched. */
  lemma {:induction false} PageParts(stream: Stream, afterCursor: Option<nat>, limit: Option<nat>, filters: Filters,
                                     decode: Decoder, got: nat)
    requires limit.Some? ==> limit.value > 0
    requires got <= |ReadWindow(stream, afterCursor, limit, filters)|
    requires DecodeAll(ReadWindow(stream, afterCursor, limit, filters)[..got], decode).Some?
    ensures var all := Filtered(stream.messages, ReadStart(stream, afterCursor), stream.lastSequence + 1, filters);
            var fetched := DecodeAll(ReadWindow(stream, afterCursor, limit, filters)[..got], decode).value;
            var page := ReadPage(stream, afterCursor, limit, fetched);
            (page.hasMore <==> limit.Some? && got > limit.value)
            && (page.hasMore ==> |page.records| == limit.value < |all|
                                 && page.cursor == Some(all[limit.value - 1].sequence))
            && (!page.hasMore ==> |page.records| == got
                                  && page.cursor == Some(MaxCursor(afterCursor, stream.lastSequence)))
            && Some(page.records) == DecodeAll(all[..|page.records|], decode)
  {
    var window := ReadWindow(stream, afterCursor, limit, filters);
    var all := Filtered(stream.messages, ReadStart(stream, afterCursor), stream.lastSequence + 1, filters);
    var fetched := DecodeAll(window[..got], decode).value;
    hide DecodeAll, Filtered, SubjectPasses;
    var kept := if limit.Some? && got > limit.value then limit.value else got;
    FirstIsPrefix(all, if limit.None? then None else Some(limit.value + 1), got);
    DecodeSlice(window[..got], decode, 0, kept);
    PrefixOfPrefix(all, got, kept);
    assert fetched[0..kept] == fetched[..kept];
    assert kept == got ==> fetched[..kept] == fetched;
    if limit.Some? && got > limit.value {
      DecodeAt(window[..got], decode, limit.value - 1);
    }
  }

  /** What a caller has not read: the messages numbered behind the cursor that pass the filters. */
  predicate IsUnread(m: Message, afterCursor: Option<nat>, filters: Filters) {
    (afterCursor.Some? ==> afterCursor.value < m.sequence) && SubjectPasses(m, filters)
  }

  function Unread(messages: seq<Message>, afterCursor: Option<nat>, filters: Filters): seq<Message> {
    if messages == [] then []
    else
      var n := |messages| - 1;
      Unread(messages[..n], afterCursor, filters) + if IsUnread(messages[n], afterCursor, filters) then [messages[n]] else []
  }

  lemma {:induction false} RangeIsUnread(messages: seq<Message>, lo: nat, hi: nat, afterCursor: Option<nat>,
                                         filters: Filters)
    requires forall m | m in messages :: Inside(m, lo, hi, filters) <==> IsUnread(m, afterCursor, filters)
    ensures Filtered(messages, lo, hi, filters) == Unread(messages, afterCursor, filters)
  {
    hide Inside, IsUnread;
    if messages != [] {
      RangeIsUnread(messages[..|messages| - 1], lo, hi, afterCursor, filters);
    }
  }

  /** A read asks for exactly what is unread. */
  lemma ReadsTheUnread(stream: Stream, afterCursor: Option<nat>, filters: Filters)
    requires stream.Valid()
    ensures Filtered(stream.messages, ReadStart(stream, afterCursor), stream.lastSequence + 1, filters)
         == Unread(stream.messages, afterCursor, filters)
  {
    hide SubjectPasses;
    forall m | m in stream.messages
      ensures Inside(m, ReadStart(stream, afterCursor), stream.lastSequence + 1, filters) <==>
              IsUnread(m, afterCursor, filters)
    {
      var k :| 0 <= k < |stream.messages| && stream.messages[k] == m;
    }
    RangeIsUnread(stream.messages, ReadStart(stream, afterCursor), stream.lastSequence + 1, afterCursor, filters);
  }

  predicate AllDecode(stream: Stream, decode: Decoder) {
    forall m | m in stream.messages :: decode(m.data).Some?
  }

  lemma EveryMatchDecodes(stream: Stream, start: nat, filters: Filters, decode: Decoder)
    requires AllDecode(stream, decode)
    ensures DecodeAll(Filtered(stream.messages, start, stream.lastSequence + 1, filters), decode).Some?
  {
    FilteredHolds(stream.messages, start, stream.lastSequence + 1, filters);
    DecodesWhenAllDo(Filtered(stream.messages, start, stream.lastSequence + 1, filters), decode);
  }

  lemma WindowDecodes(stream: Stream, afterCursor: Option<nat>, limit: Option<nat>, filters: Filters, decode: Decoder)
    requires AllDecode(stream, decode)
    ensures DecodeAll(ReadWindow(stream, afterCursor, limit, filters), decode).Some?
  {
    var all := Filtered(stream.messages, ReadStart(stream, afterCursor), stream.lastSequence + 1, filters);
    var window := ReadWindow(stream, afterCursor, limit, filters);
    EveryMatchDecodes(stream, ReadStart(stream, afterCursor), filters, decode);
    hide DecodeAll, Filtered;
    FirstIsPrefix(all, if limit.None? then None else Some(limit.value + 1), |window|);
    assert all[0..|window|] == all[..|window|] && window[..|window|] == window;
    DecodeSlice(all, decode, 0, |window|);
  }

  /** On messages that decode, a prompt read returns the first `limit` unread matches, and says whether there are more;
      the cursor it gives back lies in front of exactly the others. */
  lemma {:induction false} ReadIsExact(stream: Stream, afterCursor: Option<nat>, limit: Option<nat>, filters: Filters,
                                       decode: Decoder)
    requires stream.Valid() && (limit.Some? ==> limit.value > 0)
    requires AllDecode(stream, decode)
    ensures DecodeAll(ReadWindow(stream, afterCursor, limit, filters), decode).Some?
    ensures var window := ReadWindow(stream, afterCursor, limit, filters);
            var page := ReadPage(stream, afterCursor, limit, DecodeAll(window, decode).value);
            var all := Unread(stream.messages, afterCursor, filters);
            var k := if page.hasMore then limit.value else |all|;
            (page.hasMore <==> limit.Some? && |all| > limit.value)
            && Some(page.records) == DecodeAll(all[..k], decode)
            && page.cursor.Some? && forall i | 0 <= i < |all| :: page.cursor.value < all[i].sequence <==> k <= i
  {
    hide DecodeAll, Filtered, SubjectPasses, ReadPage, ReadStart, AllDecode, Unread, Inside;
    var start := ReadStart(stream, afterCursor);
    var all := Filtered(stream.messages, start, stream.lastSequence + 1, filters);
    var window := ReadWindow(stream, afterCursor, limit, filters);
    WindowDecodes(stream, afterCursor, limit, filters, decode);
    assert window[..|window|] == window && all[..|all|] == all;
    PageParts(stream, afterCursor, limit, filters, decode, |window|);
    ReadsTheUnread(stream, afterCursor, filters);
    FilteredNumbered(stream.messages, start, stream.lastSequence + 1, filters);
    FilteredHolds(stream.messages, start, stream.lastSequence + 1, filters);
    NotBehindLast(afterCursor, stream.lastSequence);
  }

  lemma NotBehindLast(afterCursor: Option<nat>, lastSequence: nat)
    ensures MaxCursor(afterCursor, lastSequence) >= lastSequence
  {
  }

  /** A cursor given back is never behind the one received, and what the stream numbers later lies behind both. */
  lemma CursorNeverOvertakes(stream: Stream, afterCursor: Option<nat>, limit: Option<nat>, filters: Filters,
                             decode: Decoder, got: nat, later: nat)
    requires stream.Valid() && (limit.Some? ==> limit.value > 0)
    requires got <= |ReadWindow(stream, afterCursor, limit, filters)|
    requires DecodeAll(ReadWindow(stream, afterCursor, limit, filters)[..got], decode).Some?
    ensures var page := ReadPage(stream, afterCursor, limit,
                                 DecodeAll(ReadWindow(stream, afterCursor, limit, filters)[..got], decode).value);
            && page.cursor.Some? && (afterCursor.Some? ==> afterCursor.value <= page.cursor.value)
            && (stream.lastSequence < later && (afterCursor.Some? ==> afterCursor.value < later) ==>
                  page.cursor.value < later)
  {
    hide DecodeAll, Filtered, SubjectPasses, ReadWindow, ReadPage;
    PageParts(stream, afterCursor, limit, filters, decode, got);
    var all := Filtered(stream.messages, ReadStart(stream, afterCursor), stream.lastSequence + 1, filters);
    FilteredHolds(stream.messages, ReadStart(stream, afterCursor), stream.lastSequence + 1, filters);
    assert forall i | 0 <= i < |all| :: all[i] in all;
  }

  /** The matches up to a page's cursor: the first `limit`, or all there are. */
  lemma PageCovers(stream: Stream, start: nat, cursor: nat, limit: Option<nat>, filters: Filters, hasMore: bool)
    requires stream.Valid()
    requires var all := Filtered(stream.messages, start, stream.lastSequence + 1, filters);
             if hasMore then limit.Some? && 0 < limit.value < |all| && cursor == all[limit.value - 1].sequence
             else cursor >= stream.lastSequence
    ensures var all := Filtered(stream.messages, start, stream.lastSequence + 1, filters);
            Filtered(stream.messages, start, cursor + 1, filters) == if hasMore then all[..limit.value] else all
  {
    hide Filtered, SubjectPasses;
    if hasMore {
      MatchesThrough(stream.messages, start, stream.lastSequence + 1, filters, limit.value - 1);
    } else {
      NothingBeyond(stream, start, cursor + 1, filters);
    }
  }

  lemma {:induction false} NothingBeyond(stream: Stream, start: nat, hi: nat, filters: Filters)
    requires stream.Valid() && stream.lastSequence < hi
    ensures Filtered(stream.messages, start, hi, filters) == Filtered(stream.messages, start, stream.lastSequence + 1, filters)
  {
    if start <= stream.lastSequence {
      RangeSplits(stream.messages, start, stream.lastSequence + 1, hi, filters);
      NothingInside(stream.messages, stream.lastSequence + 1, hi, filters);
    } else {
      NothingInside(stream.messages, start, hi, filters);
      NothingInside(stream.messages, start, stream.lastSequence + 1, filters);
    }
  }

  /** A page skips messages exactly when some of its window had not arrived: the cursor then lies behind messages that
      are not on the page. */
  lemma {:induction false} ShortFetchSkips(stream: Stream, afterCursor: Option<nat>, limit: Option<nat>,
                                           filters: Filters, decode: Decoder,
                                           got: nat)
    requires stream.Valid() && (limit.Some? ==> limit.value > 0)
    requires got <= |ReadWindow(stream, afterCursor, limit, filters)|
    requires DecodeAll(ReadWindow(stream, afterCursor, limit, filters)[..got], decode).Some?
    ensures var start, window := ReadStart(stream, afterCursor), ReadWindow(stream, afterCursor, limit, filters);
            var page := ReadPage(stream, afterCursor, limit, DecodeAll(window[..got], decode).value);
            (|Filtered(stream.messages, start, page.cursor.value + 1, filters)| > |page.records|)
            <==> got < |window|
  {
    var start := ReadStart(stream, afterCursor);
    var all := Filtered(stream.messages, start, stream.lastSequence + 1, filters);
    hide DecodeAll, Filtered, SubjectPasses;
    PageParts(stream, afterCursor, limit, filters, decode, got);
    var fetched := DecodeAll(ReadWindow(stream, afterCursor, limit, filters)[..got], decode).value;
    var page := ReadPage(stream, afterCursor, limit, fetched);
    hide ReadPage, ReadStart;
    PageCovers(stream, start, page.cursor.value, limit, filters, page.hasMore);
  }

  /** A stream of one message, read by a consumer that times out before it delivers any. */
  const ONE_MESSAGE := Stream([Message(1, None, None, [])], 1)

  lemma TimedOutReadSkips()
    ensures ONE_MESSAGE.Valid() && |ReadWindow(ONE_MESSAGE, None, None, Filters([], []))| == 1
    ensures var page := ReadPage(ONE_MESSAGE, None, None, []);
            page == NatsPage([], Some(1), false)
            && Filtered(ONE_MESSAGE.messages, ReadStart(ONE_MESSAGE, None), page.cursor.value + 1, Filters([], []))
               == ONE_MESSAGE.messages
  {
    var m := ONE_MESSAGE.messages[0];
    assert ONE_MESSAGE.messages[..0] == [] && Inside(m, 1, 2, Filters([], []));
    assert Filtered(ONE_MESSAGE.messages, 1, 2, Filters([], [])) == [m];
  }

  /** The page of a prompt read. */
  function PromptPage(stream: Stream, afterCursor: Option<nat>, limit: nat, filters: Filters, decode: Decoder): NatsPage
    requires AllDecode(stream, decode) && limit > 0
  {
    WindowDecodes(stream, afterCursor, Some(limit), filters, decode);
    ReadPage(stream, afterCursor, Some(limit),
             DecodeAll(ReadWindow(stream, afterCursor, Some(limit), filters), decode).value)
  }

  lemma PromptParts(stream: Stream, afterCursor: Option<nat>, limit: nat, filters: Filters, decode: Decoder)
    requires stream.Valid() && AllDecode(stream, decode) && limit > 0
    ensures var page, all := PromptPage(stream, afterCursor, limit, filters, decode), Unread(stream.messages, afterCursor, filters);
            (page.hasMore <==> |all| > limit)
            && (page.hasMore ==> page.cursor == Some(all[limit - 1].sequence))
            && |page.records| == (if page.hasMore then limit else |all|)
            && Some(page.records) == DecodeAll(all[..|page.records|], decode)
  {
    hide DecodeAll, Filtered, SubjectPasses, ReadPage, ReadStart, AllDecode;
    var window := ReadWindow(stream, afterCursor, Some(limit), filters);
    WindowDecodes(stream, afterCursor, Some(limit), filters, decode);
    assert window[..|window|] == window;
    PageParts(stream, afterCursor, Some(limit), filters, decode, |window|);
    ReadsTheUnread(stream, afterCursor, filters);
  }

  /** A page that says there is more leaves exactly the rest behind its cursor. */
  lemma PageLeavesTheRest(stream: Stream, afterCursor: Option<nat>, limit: nat, filters: Filters, decode: Decoder)
    requires stream.Valid() && AllDecode(stream, decode) && limit > 0
    ensures var page, all := PromptPage(stream, afterCursor, limit, filters, decode), Unread(stream.messages, afterCursor, filters);
            (page.hasMore <==> |all| > limit)
            && |page.records| == (if page.hasMore then limit else |all|)
            && Some(page.records) == DecodeAll(all[..|page.records|], decode)
            && (page.hasMore ==>
                  page.cursor.Some? && Unread(stream.messages, page.cursor, filters) == all[limit..]
                  && ReadStart(stream, afterCursor) <= page.cursor.value <= stream.lastSequence)
  {
    hide DecodeAll, Filtered, SubjectPasses, PromptPage, AllDecode;
    PromptParts(stream, afterCursor, limit, filters, decode);
    ReadsTheUnread(stream, afterCursor, filters);
    if |Unread(stream.messages, afterCursor, filters)| > limit {
      var next := Unread(stream.messages, afterCursor, filters)[limit - 1].sequence;
      MatchesAfter(stream.messages, ReadStart(stream, afterCursor), stream.lastSequence + 1, filters, limit - 1);
      ReadsTheUnread(stream, Some(next), filters);
    }
  }

  /** Reads of a fixed stream, each behind the cursor of the one before, until one says there is no more. */
  ghost function ReadChain(stream: Stream, afterCursor: Option<nat>, limit: nat, filters: Filters, decode: Decoder)
    : seq<NatsRecord>
    requires stream.Valid() && AllDecode(stream, decode) && limit > 0
    decreases stream.lastSequence + 1 - ReadStart(stream, afterCursor)
  {
    var page := PromptPage(stream, afterCursor, limit, filters, decode);
    PageLeavesTheRest(stream, afterCursor, limit, filters, decode);
    if page.hasMore then page.records + ReadChain(stream, page.cursor, limit, filters, decode) else page.records
  }

  /** A chain of reads returns the record of every match once, in order. */
  lemma {:induction false} ReadChainIsComplete(stream: Stream, afterCursor: Option<nat>, limit: nat, filters: Filters,
                                               decode: Decoder)
    requires stream.Valid() && AllDecode(stream, decode) && limit > 0
    ensures Some(ReadChain(stream, afterCursor, limit, filters, decode))
         == DecodeAll(Unread(stream.messages, afterCursor, filters), decode)
    decreases stream.lastSequence + 1 - ReadStart(stream, afterCursor)
  {
    hide DecodeAll, Unread, PromptPage, AllDecode;
    var page, all := PromptPage(stream, afterCursor, limit, filters, decode), Unread(stream.messages, afterCursor, filters);
    PageLeavesTheRest(stream, afterCursor, limit, filters, decode);
    assert all[..|all|] == all;
    if page.hasMore {
      ReadChainIsComplete(stream, page.cursor, limit, filters, decode);
      DecodeJoins(all, decode, limit);
    }
  }

  /** Two parts decode to the two parts of the records. */
  lemma {:induction false} DecodeJoins(messages: seq<Message>, decode: Decoder, k: nat)
    requires k <= |messages| && DecodeAll(messages[..k], decode).Some? && DecodeAll(messages[k..], decode).Some?
    ensures DecodeAll(messages, decode)
         == Some(DecodeAll(messages[..k], decode).value + DecodeAll(messages[k..], decode).value)
  {
    hide DecodeAll;
    DecodesWhenAllDo(messages[..k], decode);
    DecodesWhenAllDo(messages[k..], decode);
    assert messages == messages[..k] + messages[k..];
    DecodesWhenAllDo(messages, decode);
    DecodeSlice(messages, decode, 0, k);
    DecodeSlice(messages, decode, k, |messages|);
    assert messages[0..k] == messages[..k] && messages[k..|messages|] == messages[k..];
    var all := DecodeAll(messages, decode).value;
    assert all == all[0..k] + all[k..|messages|];
  }
}
