/** What `append` makes of the script's replies, and when a retry of a stored record throws. */
module AppendTheorems {
  import opened Wrappers
  import opened StreamLog
  import opened StreamState
  import opened StreamInvariant
  import opened StreamTheorems
  import opened DedupeTheorems
  import opened Records

  datatype AppendError = RecordGone | BodyUndecodable

  function FromBody(id: StreamId, body: Body, decode: Decoder): Result<Record, AppendError> {
    if decode(body).None? then Err(BodyUndecodable) else Ok(Record(id, decode(body).value))
  }

  /** The record for one reply. A duplicate without a body is fetched by its id, from what the stream holds by then. */
  function RecordFor(reply: Reply, own: Content, later: seq<Entry>, decode: Decoder): Result<Record, AppendError> {
    match reply
    case Stored(id) => Ok(Record(id, own))
    case Duplicate(id, body) =>
      if body != [] then FromBody(id, body, decode)
      else
        var found := XRange(later, From(id), UpTo(id), 1);
        if found == [] then Err(RecordGone) else FromBody(id, found[0].body, decode)
  }

  /** An entry the stream holds under an id. */
  ghost predicate Holds(s: seq<Entry>, id: StreamId, body: Body) {
    exists k :: 0 <= k < |s| && s[k].id == id && s[k].body == body
  }

  /** A body a duplicate's record may be decoded from: the one the reply carries or, without one, one fetched. */
  ghost predicate Source(reply: Reply, later: seq<Entry>, body: Body) {
    reply.Duplicate? && if reply.body != [] then body == reply.body else Holds(later, reply.id, body)
  }

  /** A record answers a reply: under the reply's id, the caller's own content if it was stored, else a decoded body. */
  ghost predicate Answers(reply: Reply, own: Content, later: seq<Entry>, decode: Decoder, record: Record) {
    && record.cursor == reply.id
    && match reply
       case Stored(_) => record.content == own
       case Duplicate(_, _) => exists body :: Source(reply, later, body) && decode(body) == Some(record.content)
  }

  /** Why a duplicate has no record: its entry is gone, or its body does not decode. */
  ghost predicate Throws(reply: Reply, later: seq<Entry>, decode: Decoder, error: AppendError) {
    && reply.Duplicate?
    && match error
       case RecordGone => forall body :: !Source(reply, later, body)
       case BodyUndecodable => exists body :: Source(reply, later, body) && decode(body).None?
  }

  ghost predicate Answered(reply: Reply, own: Content, later: seq<Entry>, decode: Decoder) {
    exists record :: Answers(reply, own, later, decode, record)
  }

  /** The k-th reply throws, and every one before it has a record. */
  ghost predicate FirstToThrow(replies: seq<Reply>, contents: seq<Content>, views: nat -> seq<Entry>, decode: Decoder,
                               k: nat, error: AppendError)
    requires k < |replies| == |contents|
  {
    Throws(replies[k], views(k), decode, error)
    && forall j: nat | j < k :: Answered(replies[j], contents[j], views(j), decode)
  }

  /** The loop over the replies: one record each, or the first error. `views(j)` is what the stream holds when reply j
      is looked at. */
  method AppendedRecords(replies: seq<Reply>, contents: seq<Content>, views: nat -> seq<Entry>, decode: Decoder)
    returns (r: Result<seq<Record>, AppendError>)
    requires |replies| == |contents|
    ensures r.Ok? ==> |r.value| == |replies|
    ensures r.Ok? ==> forall j: nat | j < |replies| :: Answers(replies[j], contents[j], views(j), decode, r.value[j])
    ensures r.Err? ==> exists k: nat | k < |replies| :: FirstToThrow(replies, contents, views, decode, k, r.error)
  {
    hide XRange, Answers, Throws, RecordFor;
    var records := [];
    for index := 0 to |replies|
      invariant |records| == index
      invariant forall j: nat | j < index :: Answers(replies[j], contents[j], views(j), decode, records[j])
      invariant forall j: nat | j < index :: Answered(replies[j], contents[j], views(j), decode)
    {
      var record := RecordFor(replies[index], contents[index], views(index), decode);
      RecordAnswers(replies[index], contents[index], views(index), decode);
      if record.Err? {
        assert FirstToThrow(replies, contents, views, decode, index, record.error);
        return Err(record.error);
      }
      records := records + [record.value];
    }
    r := Ok(records);
  }

  lemma RecordAnswers(reply: Reply, own: Content, later: seq<Entry>, decode: Decoder)
    ensures match RecordFor(reply, own, later, decode)
            case Ok(record) => Answers(reply, own, later, decode, record)
            case Err(error) => Throws(reply, later, decode, error)
  {
    hide XRange;
    if reply.Duplicate? {
      FetchIsExact(later, 0, reply.id);
      var found := XRange(later, From(reply.id), UpTo(reply.id), 1);
      XRangeIsFrom(later, reply.id);
      if reply.body != [] {
        assert Source(reply, later, reply.body);
      } else if found != [] {
        assert Holds(later, reply.id, found[0].body);
        assert Source(reply, later, found[0].body);
      }
    }
  }

  lemma XRangeIsFrom(s: seq<Entry>, id: StreamId)
    ensures XRange(s, From(id), UpTo(id), 1) == XRangeFrom(s, 0, From(id), UpTo(id), 1)
  {
  }

  /** Fetching by an id finds an entry under it, or there is none. */
  lemma {:induction false} FetchIsExact(s: seq<Entry>, p: nat, id: StreamId)
    requires p <= |s|
    ensures var found := XRangeFrom(s, p, From(id), UpTo(id), 1);
            if found == [] then forall q | p <= q < |s| :: s[q].id != id
            else |found| == 1 && found[0].id == id && exists q | p <= q < |s| :: s[q] == found[0]
    decreases |s| - p
  {
    if p < |s| {
      if s[p].id == id {
        assert XRangeFrom(s, p + 1, From(id), UpTo(id), 0) == [];
      } else {
        FetchIsExact(s, p + 1, id);
      }
    }
  }

  /** Fetching entry i of the history by its id finds it exactly while it is physically there. */
  lemma FetchFinds(history: seq<Entry>, g: nat, i: nat)
    requires Sorted(history) && g <= |history| && i < |history|
    ensures XRange(history[g..], From(history[i].id), UpTo(history[i].id), 1) == if g <= i then [history[i]] else []
  {
    FetchIsExact(history[g..], 0, history[i].id);
    assert forall q | 0 <= q < |history| - g :: history[g..][q] == history[g + q];
    assert g <= i ==> history[g..][i - g] == history[i];
    forall q | 0 <= q < |history| && history[q].id == history[i].id ensures q == i {
      OneOfEachId(history, q, i);
    }
  }

  lemma OneOfEachId(history: seq<Entry>, q: nat, i: nat)
    requires Sorted(history) && q < |history| && i < |history| && history[q].id == history[i].id
    ensures q == i
  {
    assert !Less(history[q].id, history[i].id) && !Less(history[i].id, history[q].id);
  }

  /** The records of the stored replies, in order. */
  function StoredRecords(replies: seq<Reply>, records: seq<Record>): seq<Record>
    requires |replies| == |records|
  {
    if replies == [] then []
    else
      var n := |replies| - 1;
      StoredRecords(replies[..n], records[..n]) + if replies[n].Stored? then [records[n]] else []
  }

  lemma {:induction false} StoredAreMatches(batch: seq<Input>, replies: seq<Reply>, contents: seq<Content>,
                                            views: nat -> seq<Entry>, decode: Decoder, records: seq<Record>)
    requires |batch| == |replies| == |contents| == |records|
    requires forall j: nat | j < |batch| :: decode(batch[j].body) == Some(contents[j])
    requires forall j: nat | j < |batch| :: Answers(replies[j], contents[j], views(j), decode, records[j])
    ensures StoredRecords(replies, records) == Matches(StoredEntries(batch, replies), decode, Filters([], []))
  {
    if batch != [] {
      var n := |batch| - 1;
      StoredAreMatches(batch[..n], replies[..n], contents[..n], views, decode, records[..n]);
      var before := StoredEntries(batch[..n], replies[..n]);
      if replies[n].Stored? {
        var e := Entry(replies[n].id, batch[n].body);
        assert (before + [e])[..|before|] == before && decode(e.body) == Some(contents[n]);
        assert MatchOf(e, decode, Filters([], [])) == [records[n]];
      } else {
        assert before + [] == before && StoredRecords(replies[..n], records[..n]) + [] == StoredRecords(replies, records);
      }
    }
  }

  /**
    The records an append says it stored are what readers will find in the entries by which
    it made the stream grow: same cursors, same contents, same order.
   */
  lemma {:induction false} AppendReturnsWhatItStored(steps: seq<Step>, batch: seq<Input>, ttl: Millis,
                                                     contents: seq<Content>, views: nat -> seq<Entry>,
                                                     decode: Decoder, records: seq<Record>)
    requires Run(steps).ensured && |batch| == |contents| == |records|
    requires forall j: nat | j < |batch| :: decode(batch[j].body) == Some(contents[j])
    requires |AppendStep(Run(steps), batch, ttl).1| == |batch|
    requires var replies := AppendStep(Run(steps), batch, ttl).1;
             forall j: nat | j < |batch| :: Answers(replies[j], contents[j], views(j), decode, records[j])
    ensures var before, after := Run(steps).history, Run(steps + [Append(batch, ttl)]).history;
            && before <= after
            && StoredRecords(AppendStep(Run(steps), batch, ttl).1, records)
               == Matches(after[|before|..], decode, Filters([], []))
  {
    hide Answers, Matches, AppendAll;
    var st, replies := Run(steps), AppendStep(Run(steps), batch, ttl).1;
    RunSnoc(steps, Append(batch, ttl));
    RepliesAccountForTheHistory(st, batch, ttl);
    StoredAreMatches(batch, replies, contents, views, decode, records);
    var after := Run(steps + [Append(batch, ttl)]).history;
    assert after[|st.history|..] == StoredEntries(batch, replies);
  }

  /** The reply to a retry inside the window: the first entry's id, and its body while that is physically there. */
  lemma {:induction false} RetryReply(steps: seq<Step>, batch: seq<Input>, ttl: Millis, j: nat, i: nat)
    requires Run(steps).ensured && j < |batch| && i < |Run(steps).stamps| && i < |Run(steps).history|
    requires batch[j].key.Some? && Run(steps).stamps[i].key == batch[j].key
    requires Run(steps).now < Run(steps).stamps[i].storedAt + Run(steps).stamps[i].ttl
    ensures |AppendStep(Run(steps), batch, ttl).1| == |batch|
    ensures var st := Run(steps);
            AppendStep(st, batch, ttl).1[j]
            == Duplicate(st.history[i].id, if Gone(st) <= i then st.history[i].body else [])
  {
    hide Next, BoundaryInv, AppendOne, Names;
    EveryRunKeepsInv(steps);
    var st, key := Run(steps), batch[j].key.value;
    var mid := AppendAll(st, batch[..j], ttl).0;
    assert Open(st.stamps, st.now, i);
    OpenNames(st, i);
    SlotSurvives(st, batch[..j], ttl, 0, key);
    ReplyAt(st, batch, ttl, j);
    AppendAllKeeps(st, batch[..j], ttl);
    assert batch[..j][..0] == [];
    DuplicateCarriesTheStoredBody(mid, batch[j], ttl, i);
  }

  lemma OpenNames(st: State, i: nat)
    requires DedupeInv(st) && Open(st.stamps, st.now, i)
    ensures i < |st.history| && st.stamps[i].key.value in st.dedupe
            && st.dedupe[st.stamps[i].key.value].id == st.history[i].id
  {
  }

  /** A retry inside the window gives the first record back, or throws exactly when that was already gone, and then the
      boundary says so. Bodies are never empty in practice; an empty one is fetched later and may be gone by then. */
  lemma {:induction false} RetryThrowsExactlyWhenGone(steps: seq<Step>, batch: seq<Input>, ttl: Millis, j: nat, i: nat,
                                                      more: seq<Step>, own: Content, decode: Decoder)
    requires Run(steps).ensured && j < |batch| && i < |Run(steps).stamps| && i < |Run(steps).history|
    requires batch[j].key.Some? && Run(steps).stamps[i].key == batch[j].key
    requires Run(steps).now < Run(steps).stamps[i].storedAt + Run(steps).stamps[i].ttl
    ensures |AppendStep(Run(steps), batch, ttl).1| == |batch|
    ensures var st, later := Run(steps), Run(steps + ([Append(batch, ttl)] + more));
            var e, reply := st.history[i], AppendStep(st, batch, ttl).1[j];
            var gone := if e.body != [] then e !in st.entries else e !in later.entries;
            && (Throws(reply, later.entries, decode, RecordGone) <==> gone)
            && (gone ==> !Newer(e.id, later.lastTrimmedId))
            && (Throws(reply, later.entries, decode, BodyUndecodable) <==> !gone && decode(e.body).None?)
            && forall record :: Answers(reply, own, later.entries, decode, record) <==>
                                !gone && decode(e.body) == Some(record.content) && record.cursor == e.id
  {
    hide Next, DedupeInv, AppendStep, XRange, Throws, Answers, Holds;
    var tail := [Append(batch, ttl)] + more;
    var st, later := Run(steps), Run(steps + tail);
    RetryReply(steps, batch, ttl, j, i);
    EveryRunKeepsInv(steps);
    EveryRunKeepsInv(steps + tail);
    RunExtends(steps, tail);
    SliceHolds(st.history, Gone(st), i);
    SliceHolds(later.history, Gone(later), i);
    HoldsOnly(later.history, Gone(later), i);
    NoUnreportedGap(steps, tail, i);
    var e := st.history[i];
    assert e == later.history[i] && (e in st.entries <==> Gone(st) <= i) && (e in later.entries <==> Gone(later) <= i);
    DuplicateOutcome(AppendStep(st, batch, ttl).1[j], e, Gone(st) <= i, later.entries, own, decode);
  }

  /** What becomes of a duplicate, by whether its entry was there when the script replied, and is when it is fetched. */
  lemma DuplicateOutcome(reply: Reply, e: Entry, carried: bool, later: seq<Entry>, own: Content, decode: Decoder)
    requires reply == Duplicate(e.id, if carried then e.body else []) && (e in later ==> carried)
    requires forall body :: Holds(later, e.id, body) <==> e in later && body == e.body
    ensures var gone := if e.body != [] then !carried else e !in later;
            && (Throws(reply, later, decode, RecordGone) <==> gone)
            && (Throws(reply, later, decode, BodyUndecodable) <==> !gone && decode(e.body).None?)
            && forall record :: Answers(reply, own, later, decode, record) <==>
                                !gone && decode(e.body) == Some(record.content) && record.cursor == e.id
  {
    SourceIs(reply, e, carried, later);
    hide Holds, Source;
    if if e.body != [] then carried else e in later {
      assert Source(reply, later, e.body);
    }
  }

  lemma SourceIs(reply: Reply, e: Entry, carried: bool, later: seq<Entry>)
    requires reply == Duplicate(e.id, if carried then e.body else []) && (e in later ==> carried)
    requires forall body :: Holds(later, e.id, body) <==> e in later && body == e.body
    ensures forall body :: Source(reply, later, body) <==>
                           (if e.body != [] then carried else e in later) && body == e.body
  {
    hide Holds;
  }

  /** Under an entry's id the stream holds its body and no other, while it holds the entry. */
  lemma HoldsOnly(history: seq<Entry>, g: nat, i: nat)
    requires Sorted(history) && g <= |history| && i < |history|
    ensures forall body :: Holds(history[g..], history[i].id, body) <==> g <= i && body == history[i].body
  {
    assert g <= i ==> history[g..][i - g] == history[i];
    forall q | 0 <= q < |history| - g && history[g..][q].id == history[i].id ensures g + q == i {
      OneOfEachId(history, g + q, i);
    }
  }
}
