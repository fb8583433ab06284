/**
  The Lua scripts on the keys of one broker stream, with their paged loops. Each is
  atomic; each is proved to take exactly the step the run theorems are about.
 */
module RedisStream {
  import opened Wrappers
  import opened StreamLog
  import opened Retention
  import opened StreamState
  import opened StreamInvariant

  const PAGE := 256

  datatype ScriptError = NotEnsured

  /** A prefix of k entries has been removed, and the script's locals agree. */
  ghost predicate Removed(before: seq<Entry>, entries: seq<Entry>, k: nat, retained: int, last: Option<StreamId>) {
    && k <= |before|
    && entries == before[k..]
    && retained == Bytes(entries)
    && last == LastOf(before, k)
  }

  /** Every subtraction the scripts clamp at zero. That each of them may be made shows that no clamp ever acts. */
  function Clamped(bytes: int, removed: int): (left: nat)
    requires removed <= bytes
    ensures left == bytes - removed
  {
    Max(0, bytes - removed)
  }

  class RedisStream {
    var ensured: bool
    var limits: Limits
    var entries: seq<Entry>
    var lastGenerated: StreamId
    var retainedBytes: int
    var lastTrimmedId: Option<StreamId>
    var lastId: Option<StreamId>
    var dedupe: map<string, Slot>
    var clock: nat
    ghost var history: seq<Entry>
    ghost var stamps: seq<Stamp>

    ghost function View(): State
      reads this
    {
      State(ensured, limits, entries, lastGenerated, retainedBytes, lastTrimmedId, lastId, dedupe, clock, history, stamps)
    }

    ghost predicate Valid()
      reads this
    {
      Inv(View())
    }

    /** The part of Valid the retention scripts compute with. */
    ghost predicate Accounted()
      reads this
    {
      Sorted(entries) && retainedBytes == Bytes(entries)
    }

    lemma Accounts()
      requires Valid()
      ensures Accounted()
    {
    }

    lemma LogAccounts()
      requires LogInv(View())
      ensures Accounted()
    {
    }

    constructor ()
      ensures Valid() && View() == INITIAL
    {
      ensured, limits, entries, lastGenerated := false, UNLIMITED, [], ZERO;
      retainedBytes, lastTrimmedId, lastId, dedupe, clock := 0, None, None, map[], 0;
      history, stamps := [], [];
    }

    // ------------------------------------------------------------- ENSURE

    method Ensure(requested: Limits) returns (created: bool)
      requires Valid()
      modifies this
      ensures Valid() && View() == EnsureStep(old(View()), requested)
      ensures created == !old(ensured)
    {
      hide Inv;
      EnsureKeepsInv(View(), requested);
      if ensured {
        return false;
      }
      ensured := true;
      retainedBytes := 0;
      limits := requested;
      return true;
    }

    // ------------------------------------------------------- shared locals

    method AdvanceBoundary(candidate: Option<StreamId>)
      modifies this`lastTrimmedId
      ensures lastTrimmedId == Advance(old(lastTrimmedId), candidate)
    {
      if candidate.Some? && (lastTrimmedId.None? || Less(lastTrimmedId.value, candidate.value)) {
        lastTrimmedId := candidate;
      }
    }

    /** The newest id, as the zero-limit branches fetch it before emptying the stream. */
    method NewestId() returns (newest: Option<StreamId>)
      ensures newest == LastOf(entries, |entries|)
    {
      var removed := XRevRange(entries, End, Start, 1);
      XRevRangeNewest(entries);
      newest := if |removed| > 0 then Some(removed[0].id) else None;
    }

    /** Counts one page as removed. */
    static method RecordRemoved(page: seq<Entry>, retained: nat, last: Option<StreamId>)
      returns (retained': nat, last': Option<StreamId>)
      requires Bytes(page) <= retained
      ensures retained' == retained - Bytes(page)
      ensures last' == if page == [] then last else LastOf(page, |page|)
    {
      retained', last' := retained, last;
      for index := 0 to |page|
        invariant retained' == retained - (Bytes(page) - Bytes(page[index..]))
        invariant Bytes(page[index..]) <= Bytes(page)
        invariant last' == if index == 0 then last else LastOf(page, index)
      {
        BytesDrop(page, index);
        retained' := Clamped(retained', |page[index].body|);
        last' := Some(page[index].id);
      }
      assert page[|page|..] == [];
    }

    /** The slice after position p that a page of the scan returns, and its bytes. */
    lemma {:induction false} NextPage(s: seq<Entry>, p: nat, hi: Upper, count: nat)
      requires Sorted(s) && p <= Reach(s, hi)
      ensures var page := XRange(s, LowerAt(s, p), hi, count);
              && page == s[p..Min(p + count, Reach(s, hi))]
              && Bytes(s[p..]) == Bytes(page) + Bytes(s[p + |page|..])
              && (page != [] ==> LowerAt(s, p + |page|) == After(page[|page| - 1].id))
              && (page != [] ==> LastOf(s, p + |page|) == LastOf(page, |page|))
    {
      hide Sorted, XRange, Reach, Skip;
      SkipAt(s, p);
      XRangeSlice(s, LowerAt(s, p), hi, count);
      var page := XRange(s, LowerAt(s, p), hi, count);
      assert s[p..] == page + s[p + |page|..];
      BytesSplit(page, s[p + |page|..]);
    }

    lemma {:induction false} ReachEnd(s: seq<Entry>)
      requires Sorted(s)
      ensures Reach(s, End) == |s|
    {
      ReachIs(s, End, |s|);
    }

    // ---------------------------------------------------------------- AGE

    method EnforceAgeRetention() returns (reply: Result<Option<StreamId>, ScriptError>)
      requires Valid()
      modifies this
      ensures Valid() && View() == AgeStep(old(View()))
      ensures reply == if !old(ensured) then Err(NotEnsured)
                       else Ok(LastOf(old(entries), AgePrefix(old(entries), limits, clock)))
    {
      hide Inv, Sorted;
      AgeKeepsInv(View());
      Accounts();
      if !ensured {
        return Err(NotEnsured);
      }
      if limits.maxAgeMs.None? {
        assert entries[0..] == entries;
        return Ok(None);
      }
      var lastTrimmed: Option<StreamId> := None;
      if limits.maxAgeMs.value <= 0 {
        lastTrimmed := NewestId();
        entries := XTrimMaxLen(entries, 0);
        retainedBytes := 0;
      } else {
        var removedBytes := 0;
        var minId := OldestKept(limits.maxAgeMs.value, clock);
        removedBytes, lastTrimmed := ScanOlder(minId);
        XTrimMinIdDrops(entries, minId);
        entries := XTrimMinId(entries, minId);
        retainedBytes := Clamped(retainedBytes, removedBytes);
      }
      AdvanceBoundary(lastTrimmed);
      reply := Ok(lastTrimmed);
    }

    /** The paged scan of everything older than minId. */
    method ScanOlder(minId: StreamId) returns (removedBytes: nat, last: Option<StreamId>)
      requires Accounted()
      ensures var k := Reach(entries, Before(minId));
              removedBytes == Bytes(entries) - Bytes(entries[k..]) && last == LastOf(entries, k)
    {
      hide Sorted, XRange, Reach, Bytes;
      removedBytes, last := 0, None;
      var start := Start;
      ghost var p := 0;
      while true
        invariant p <= Reach(entries, Before(minId))
        invariant removedBytes == Bytes(entries) - Bytes(entries[p..])
        invariant last == LastOf(entries, p) && start == LowerAt(entries, p)
        decreases |entries| - p
      {
        var page := XRange(entries, start, Before(minId), PAGE);
        NextPage(entries, p, Before(minId), PAGE);
        if |page| == 0 {
          break;
        }
        for index := 0 to |page|
          invariant removedBytes == Bytes(entries) - Bytes(entries[p + index..])
          invariant last == LastOf(entries, p + index)
        {
          BytesDrop(entries, p + index);
          removedBytes := removedBytes + |page[index].body|;
          last := Some(page[index].id);
        }
        start := After(page[|page| - 1].id);
        p := p + |page|;
        if |page| < PAGE {
          break;
        }
      }
    }

    // --------------------------------------------------------------- TRIM

    method TrimRetention() returns (reply: Result<Option<StreamId>, ScriptError>)
      requires Valid()
      modifies this
      ensures Valid() && View() == TrimStep(old(View()))
      ensures reply == if !old(ensured) then Err(NotEnsured)
                       else Ok(LastOf(old(entries), Expendable(old(entries), limits, clock)))
    {
      hide Inv, Sorted, Bytes;
      TrimKeepsInv(View());
      Accounts();
      if !ensured {
        return Err(NotEnsured);
      }
      ghost var before := entries;
      assert entries[0..] == entries;
      var retained, last := TrimRecords(retainedBytes, before);
      retained, last := TrimAge(retained, last, before, CountPrefix(before, limits));
      retained, last := TrimBytes(retained, last, before,
                                  Max(CountPrefix(before, limits), AgePrefix(before, limits, clock)));
      retainedBytes := retained;
      AdvanceBoundary(last);
      reply := Ok(last);
    }

    method TrimRecords(retained: nat, ghost before: seq<Entry>) returns (retained': nat, last: Option<StreamId>)
      requires Sorted(before) && Removed(before, entries, 0, retained, None)
      modifies this`entries
      ensures Removed(before, entries, CountPrefix(before, limits), retained', last)
    {
      hide Sorted, XRange, Reach, Bytes;
      retained', last := retained, None;
      if limits.maxRecords.Some? {
        var removeCount := |entries| - limits.maxRecords.value;
        if removeCount > 0 {
          retained', last := ScanPrefix(removeCount, retained, None);
          entries := XTrimMaxLen(entries, limits.maxRecords.value);
        }
      }
    }

    method ScanPrefix(count: nat, retained: nat, last: Option<StreamId>)
      returns (retained': nat, last': Option<StreamId>)
      requires Sorted(entries) && retained == Bytes(entries) && 0 < count <= |entries|
      ensures retained' == Bytes(entries[count..]) && last' == LastOf(entries, count)
    {
      hide Sorted, XRange, Reach, Bytes;
      retained', last' := retained, last;
      var remaining := count;
      var start := Start;
      ghost var p := 0;
      ReachEnd(entries);
      while remaining > 0
        invariant p + remaining == count && 0 <= remaining
        invariant retained' == Bytes(entries[p..])
        invariant last' == if p == 0 then last else LastOf(entries, p)
        invariant start == LowerAt(entries, p)
      {
        var pageSize := Min(remaining, PAGE);
        var page := XRange(entries, start, End, pageSize);
        NextPage(entries, p, End, pageSize);
        if |page| == 0 {
          break;
        }
        retained', last' := RecordRemoved(page, retained', last');
        remaining := remaining - |page|;
        start := After(page[|page| - 1].id);
        p := p + |page|;
      }
    }

    method TrimAge(retained: nat, last: Option<StreamId>, ghost before: seq<Entry>, ghost k: nat)
      returns (retained': nat, last': Option<StreamId>)
      requires Sorted(before) && Removed(before, entries, k, retained, last)
      modifies this`entries
      ensures Removed(before, entries, Max(k, AgePrefix(before, limits, clock)), retained', last')
    {
      hide Sorted, XRange, Reach;
      retained', last' := retained, last;
      if limits.maxAgeMs.Some? {
        SuffixSorted(before, k);
        if limits.maxAgeMs.value <= 0 {
          var newest := NewestId();
          if newest.Some? {
            last' := newest;
          }
          entries := XTrimMaxLen(entries, 0);
          retained' := 0;
        } else {
          var minId := OldestKept(limits.maxAgeMs.value, clock);
          retained', last' := ScanExpired(minId, retained, last);
          ReachTail(before, k, Before(minId));
          XTrimMinIdDrops(entries, minId);
          entries := XTrimMinId(entries, minId);
        }
      }
    }

    method ScanExpired(minId: StreamId, retained: nat, last: Option<StreamId>)
      returns (retained': nat, last': Option<StreamId>)
      requires Sorted(entries) && retained == Bytes(entries)
      ensures var k := Reach(entries, Before(minId));
              retained' == Bytes(entries[k..]) && last' == if k == 0 then last else LastOf(entries, k)
    {
      hide Sorted, XRange, Reach, Bytes;
      retained', last' := retained, last;
      var start := Start;
      ghost var p := 0;
      while true
        invariant p <= Reach(entries, Before(minId))
        invariant retained' == Bytes(entries[p..])
        invariant last' == if p == 0 then last else LastOf(entries, p)
        invariant start == LowerAt(entries, p)
        decreases |entries| - p
      {
        var page := XRange(entries, start, Before(minId), PAGE);
        NextPage(entries, p, Before(minId), PAGE);
        if |page| == 0 {
          break;
        }
        retained', last' := RecordRemoved(page, retained', last');
        start := After(page[|page| - 1].id);
        p := p + |page|;
        if |page| < PAGE {
          break;
        }
      }
    }

    method TrimBytes(retained: nat, last: Option<StreamId>, ghost before: seq<Entry>, ghost k: nat)
      returns (retained': nat, last': Option<StreamId>)
      requires Sorted(before) && Removed(before, entries, k, retained, last)
      modifies this`entries
      ensures Removed(before, entries, Max(k, BytesTrimPrefix(before, limits)), retained', last')
    {
      hide Sorted, BytesPrefixTo;
      retained', last' := retained, last;
      if limits.maxBytes.Some? {
        if limits.maxBytes.value <= 0 {
          var newest := NewestId();
          if newest.Some? {
            last' := newest;
          }
          entries := XTrimMaxLen(entries, 0);
          retained' := 0;
        } else {
          BytesPrefixToTail(before, limits.maxBytes.value, k);
          SuffixSorted(before, k);
          retained', last' := DeleteOverBytes(limits.maxBytes.value, retained, last);
        }
      }
    }

    /** Deletes page after page from the head until the bytes fit. */
    method DeleteOverBytes(target: nat, retained: nat, last: Option<StreamId>)
      returns (retained': nat, last': Option<StreamId>)
      requires Sorted(entries) && retained == Bytes(entries)
      modifies this`entries
      ensures Removed(old(entries), entries, BytesPrefixTo(old(entries), target), retained',
                      if BytesPrefixTo(old(entries), target) == 0 then None else last')
      ensures BytesPrefixTo(old(entries), target) == 0 ==> last' == last
    {
      hide Sorted, XRange, Reach, Bytes, BytesPrefixTo;
      retained', last' := retained, last;
      ghost var before, p := entries, 0;
      assert before[0..] == before;
      while retained' > target
        invariant p <= BytesPrefixTo(before, target)
        invariant entries == before[p..] && retained' == Bytes(entries)
        invariant last' == if p == 0 then last else LastOf(before, p)
        decreases |before| - p
      {
        SuffixSorted(before, p);
        var page := XRange(entries, Start, End, PAGE);
        ReachEnd(entries);
        NextPage(entries, 0, End, PAGE);
        if |page| == 0 {
          retained' := 0;
          break;
        }
        var ids;
        retained', last', ids := PickOverBytes(target, page, retained', last', before, p);
        if |ids| > 0 {
          XDelIds(entries, ids);
          entries := XDel(entries, ids);
          p := p + |ids|;
        } else {
          break;
        }
      }
      BytesPrefixToIsLeast(before, target, p);
    }

    /** The entries of one page to delete: from the head, until the bytes fit. */
    static method PickOverBytes(target: nat, page: seq<Entry>, retained: nat, last: Option<StreamId>,
                                ghost before: seq<Entry>, ghost p: nat)
      returns (retained': nat, last': Option<StreamId>, ids: seq<StreamId>)
      requires p + |page| <= |before| && page == before[p..p + |page|] && page != []
      requires retained == Bytes(before[p..]) > target && p <= BytesPrefixTo(before, target)
      ensures 0 < |ids| <= |page| && forall i | 0 <= i < |ids| :: ids[i] == page[i].id
      ensures p + |ids| <= BytesPrefixTo(before, target)
      ensures retained' == Bytes(before[p + |ids|..]) && last' == LastOf(before, p + |ids|)
    {
      hide Bytes, BytesPrefixTo;
      retained', last', ids := retained, last, [];
      for index := 0 to |page|
        invariant |ids| <= index && (retained' > target ==> |ids| == index)
        invariant forall i | 0 <= i < |ids| :: ids[i] == page[i].id
        invariant retained' == Bytes(before[p + |ids|..])
        invariant p + |ids| <= BytesPrefixTo(before, target)
        invariant index > 0 ==> |ids| > 0 && last' == LastOf(before, p + |ids|)
      {
        if retained' <= target {
          break;
        }
        BytesPrefixToIsLeast(before, target, p + |ids|);
        BytesDrop(before, p + |ids|);
        retained' := Clamped(retained', |page[index].body|);
        last' := Some(page[index].id);
        ids := ids + [page[index].id];
      }
    }

    lemma {:induction false} XDelIds(s: seq<Entry>, ids: seq<StreamId>)
      requires Sorted(s) && |ids| <= |s|
      requires forall i | 0 <= i < |ids| :: ids[i] == s[i].id
      ensures XDel(s, ids) == s[|ids|..]
    {
      forall i | 0 <= i < |s| ensures s[i].id in ids <==> i < |ids| {
        if i < |ids| {
          assert ids[i] in ids;
        } else {
          assert forall j | 0 <= j < |ids| :: Less(ids[j], s[i].id);
        }
      }
      XDelPrefix(s, |ids|, ids);
    }

    // ------------------------------------------------------------- APPEND

    method AppendRecords(batch: seq<Input>, ttl: Millis) returns (reply: Result<seq<Reply>, ScriptError>)
      requires Valid()
      modifies this
      ensures Valid() && View() == AppendStep(old(View()), batch, ttl).0
      ensures reply == if !old(ensured) then Err(NotEnsured) else Ok(AppendStep(old(View()), batch, ttl).1)
    {
      hide LogInv, BoundaryInv, DedupeInv, AppendOne;
      AppendKeepsInv(View(), batch, ttl);
      if !ensured {
        return Err(NotEnsured);
      }
      ghost var before := View();
      var replies, storedCount := [], 0;
      var lastStored: Option<StreamId> := None;
      for index := 0 to |batch|
        invariant (View(), replies) == AppendAll(before, batch[..index], ttl)
        invariant storedCount > 0 <==> AnyStored(replies)
        invariant storedCount > 0 ==> lastStored == Some(lastGenerated)
      {
        assert batch[..index + 1][..index] == batch[..index];
        var r := AppendRecord(batch[index], ttl);
        AnyStoredSnoc(replies, r);
        replies := replies + [r];
        if r.Stored? {
          storedCount := storedCount + 1;
          lastStored := Some(r.id);
        }
      }
      assert batch[..|batch|] == batch;
      AppendAllKeeps(before, batch, ttl);
      if storedCount == 0 {
        return Ok(replies);
      }
      LogAccounts();
      lastId := lastStored;
      MarkBoundary();
      reply := Ok(replies);
    }

    /** One turn of the append loop. */
    method AppendRecord(input: Input, ttl: Millis) returns (reply: Reply)
      modifies this
      ensures (View(), reply) == AppendOne(old(View()), input, ttl)
      ensures if reply.Stored? then lastGenerated == reply.id else View() == old(View())
    {
      if input.key.Some? && input.key.value in dedupe {
        var existing := dedupe[input.key.value].id;
        var found := XRange(entries, From(existing), UpTo(existing), 1);
        XRangeExact(entries, 0, existing);
        assert entries[0..] == entries;
        reply := Duplicate(existing, if |found| > 0 then found[0].body else []);
      } else {
        var id := NextId(lastGenerated, clock);
        lastGenerated := id;
        entries := entries + [Entry(id, input.body)];
        if input.key.Some? {
          dedupe := dedupe[input.key.value := Slot(id, clock + ttl)];
        }
        retainedBytes := retainedBytes + |input.body|;
        history := history + [Entry(id, input.body)];
        stamps := stamps + [Stamp(input.key, clock, ttl)];
        reply := Stored(id);
      }
    }

    /** Records the logical boundary of the record and byte limits, deleting nothing. */
    method MarkBoundary()
      requires Accounted()
      modifies this`lastTrimmedId
      ensures View() == MarkPrefix(old(View()), OverLimit(entries, limits))
    {
      hide Sorted, Bytes;
      MarkOverRecords();
      MarkOverBytes();
      AdvanceTwice(entries, old(lastTrimmedId), CountPrefix(entries, limits), BytesPrefix(entries, limits));
    }

    method MarkOverRecords()
      requires Accounted()
      modifies this`lastTrimmedId
      ensures lastTrimmedId == Advance(old(lastTrimmedId), LastOf(entries, CountPrefix(entries, limits)))
    {
      hide Sorted, XRange, Reach, Bytes;
      if limits.maxRecords.Some? {
        var removeCount := |entries| - limits.maxRecords.value;
        if removeCount > 0 {
          var removed := XRange(entries, Start, End, removeCount);
          ReachEnd(entries);
          NextPage(entries, 0, End, removeCount);
          if |removed| > 0 {
            AdvanceBoundary(Some(removed[|removed| - 1].id));
          }
        }
      }
    }

    method MarkOverBytes()
      requires Accounted()
      modifies this`lastTrimmedId
      ensures lastTrimmedId == Advance(old(lastTrimmedId), LastOf(entries, BytesPrefix(entries, limits)))
    {
      hide Sorted;
      if limits.maxBytes.Some? && retainedBytes > limits.maxBytes.value {
        var boundary := ScanOverBytes(limits.maxBytes.value);
        AdvanceBoundary(boundary);
      }
    }

    lemma AdvanceTwice(s: seq<Entry>, current: Option<StreamId>, k: nat, l: nat)
      requires Sorted(s) && k <= |s| && l <= |s|
      ensures Advance(Advance(current, LastOf(s, k)), LastOf(s, l)) == Advance(current, LastOf(s, Max(k, l)))
    {
      if 0 < k < l { assert Less(s[k - 1].id, s[l - 1].id); }
      if 0 < l < k { assert Less(s[l - 1].id, s[k - 1].id); }
    }

    /** Finds, page by page, the last entry of the least prefix whose removal makes the bytes fit. */
    method ScanOverBytes(target: nat) returns (boundary: Option<StreamId>)
      requires Accounted()
      ensures boundary == LastOf(entries, BytesPrefixTo(entries, target))
    {
      hide Sorted, XRange, Reach, Bytes, BytesPrefixTo;
      var remaining: int := retainedBytes;
      var start := Start;
      boundary := None;
      ghost var p := 0;
      assert entries[0..] == entries;
      ReachEnd(entries);
      while remaining > target
        invariant p <= BytesPrefixTo(entries, target)
        invariant remaining == Bytes(entries[p..])
        invariant boundary == LastOf(entries, p)
        invariant remaining > target ==> start == LowerAt(entries, p)
        decreases |entries| - p
      {
        var page := XRange(entries, start, End, PAGE);
        NextPage(entries, p, End, PAGE);
        if |page| == 0 {
          break;
        }
        ghost var from := p;
        for index := 0 to |page|
          invariant from <= p <= from + index && (remaining > target ==> p == from + index)
          invariant remaining == Bytes(entries[p..])
          invariant p <= BytesPrefixTo(entries, target)
          invariant boundary == LastOf(entries, p)
          invariant index > 0 ==> p > from
        {
          if remaining <= target {
            break;
          }
          BytesPrefixToIsLeast(entries, target, p);
          BytesDrop(entries, p);
          remaining := Clamped(remaining, |page[index].body|);
          boundary := Some(page[index].id);
          p := p + 1;
        }
        start := After(page[|page| - 1].id);
      }
      BytesPrefixToIsLeast(entries, target, p);
    }

    // ------------------------------------------------------- Redis itself

    method Tick(ms: nat)
      requires Valid()
      modifies this`clock
      ensures Valid() && View() == Next(old(View()), StreamState.Tick(ms))
    {
      hide Inv;
      TickKeepsInv(View(), ms);
      clock := clock + ms;
    }

    method Forget(key: string)
      requires Valid()
      modifies this`dedupe
      ensures Valid() && View() == ForgetStep(old(View()), key)
    {
      hide Inv;
      ForgetKeepsInv(View(), key);
      if key in dedupe && dedupe[key].deadline <= clock {
        dedupe := dedupe - {key};
      }
    }
  }
}
