/**
  A subscription: one cursor that outlives its connections. Every blocking read goes
  through a disposable client; a read that fails is repeated from the same cursor by the
  next one.
 */
module SubscriptionPump {
  import opened Wrappers
  import opened StreamLog
  import opened Records
  import opened Paging

  /** When, if at all, the subscriber leaves while a reply is being handled. */
  datatype Leaving = Stays | LeavesBeforeDelivery | LeavesDuringHandler

  /** How one blocking read ends: a reply (perhaps empty), a failure or timeout, or an unsubscribe. */
  datatype ReadOutcome = Replied(leaving: Leaving, handlerThrows: bool) | Broke | Unsubscribed

  /** How one attempt to replace the client ends. */
  datatype ConnectOutcome = Connected | Refused | UnsubscribedAsleep | UnsubscribedConnecting

  /** What a series of attempts comes to: whether a client connects, and how many answers it took. */
  function Attempts(connects: seq<ConnectOutcome>, from: nat): (bool, nat)
    requires from <= |connects|
    ensures from <= Attempts(connects, from).1 <= |connects|
    decreases |connects| - from
  {
    if from == |connects| then (false, from)
    else match connects[from]
      case Connected => (true, from + 1)
      case Refused => Attempts(connects, from + 1)
      case UnsubscribedAsleep => (false, from + 1)
      case UnsubscribedConnecting => (false, from + 1)
  }

  /** How many replies the environment's answers let a subscription handle, from one answer on. */
  function RepliesHandled(outcomes: seq<ReadOutcome>, index: nat, connects: seq<ConnectOutcome>, next: nat): nat
    requires index <= |outcomes| && next <= |connects|
    decreases |outcomes| - index
  {
    if index == |outcomes| then 0
    else match outcomes[index]
      case Replied(leaving, _) =>
        if leaving.LeavesBeforeDelivery? then 0
        else if leaving.LeavesDuringHandler? then 1
        else 1 + RepliesHandled(outcomes, index + 1, connects, next)
      case Broke =>
        var (connected, next') := Attempts(connects, next);
        if connected then RepliesHandled(outcomes, index + 1, connects, next') else 0
      case Unsubscribed => 0
  }

  class RedisSubscriptionPump {
    const batchSize: nat
    var started: bool
    var aborted: bool
    var cursor: StreamId
    /** The client reads go through, how many there have been, and those not yet closed. */
    var client: nat
    var created: nat
    var open: set<nat>
    /** The batches handed to the subscriber. */
    var delivered: seq<seq<Record>>

    constructor (batchSize: nat)
      requires batchSize > 0
      ensures this.batchSize == batchSize && !started && !aborted && delivered == []
      ensures client < created && open == {client}
    {
      this.batchSize := batchSize;
      started, aborted, cursor, delivered := false, false, StreamId(0, 0), [];
      client, created, open := 0, 1, {0};
    }

    /** At most one connection is open, and it is the current one. */
    ghost predicate OneClient()
      reads this
    {
      client < created && open <= {client}
    }

    method Stop()
      modifies this`aborted, this`open
      ensures aborted && open == if old(aborted) then old(open) else old(open) - {client}
    {
      if aborted {
        return;
      }
      aborted := true;
      open := open - {client};
    }

    method Start(from: StreamId) returns (runs: bool)
      modifies this`started, this`cursor
      ensures runs == !(old(started) || aborted)
      ensures runs ==> started && cursor == from
      ensures !runs ==> started == old(started) && cursor == old(cursor)
    {
      runs := !(started || aborted);
      if runs {
        started, cursor := true, from;
      }
    }

    /**
      The run, for as long as the environment's answers go. `replies` counts the replies
      that were handled; the k-th of them shows the window views(k) of the history.
     */
    method Run(history: seq<Entry>, views: Views, outcomes: seq<ReadOutcome>, connects: seq<ConnectOutcome>,
               decode: Decoder, filters: Filters)
      returns (ghost replies: nat)
      requires started && !aborted && OneClient() && delivered == []
      modifies this`aborted, this`cursor, this`client, this`created, this`open, this`delivered
      ensures OneClient() && (aborted ==> open == {})
      ensures replies == RepliesHandled(outcomes, 0, connects, 0)
      ensures var scan := ScanAfter(history, views, After(old(cursor)), batchSize, replies);
              Flatten(delivered) == Matches(scan.pulled, decode, filters)
              && (!aborted ==> scan.cursor == After(cursor))
      ensures forall batch | batch in delivered :: 0 < |batch| <= batchSize
    {
      hide Matches, PageOf, XRange, Flatten, Resume, ScanAfter;
      replies := 0;
      var handled: nat, next: nat := 0, 0;
      ghost var from := After(cursor);
      ghost var scan := Scan(from, []);
      MatchesOfNothing(decode, filters);
      FlattenNothing<Record>();
      ScanMore(history, views, from, batchSize, 0);
      var index: nat := 0;
      while !aborted && index < |outcomes|
        invariant OneClient() && replies == handled && next <= |connects| && index <= |outcomes|
        invariant RepliesHandled(outcomes, 0, connects, 0)
               == replies + if aborted then 0 else RepliesHandled(outcomes, index, connects, next)
        invariant scan == ScanAfter(history, views, from, batchSize, replies)
        invariant Flatten(delivered) == Matches(scan.pulled, decode, filters)
        invariant !aborted ==> scan.cursor == After(cursor)
        invariant forall batch | batch in delivered :: 0 < |batch| <= batchSize
        decreases |outcomes| - index
      {
        var outcome := outcomes[index];
        index := index + 1;
        match outcome {
          case Replied(leaving, handlerThrows) =>
            // What the handler throws is swallowed: it changes nothing below.
            if leaving == LeavesBeforeDelivery {
              Stop();
            } else {
              var entries := PageOf(history, views(handled), After(cursor), batchSize);
              PageFits(history, views(handled), After(cursor), batchSize);
              ScanMore(history, views, from, batchSize, handled);
              MatchesSplit(scan.pulled, entries, decode, filters);
              HandleReply(entries, leaving, decode, filters);
              scan := ScanStep(scan, entries);
              handled := handled + 1;
              replies := replies + 1;
            }
          case Broke =>
            open := open - {client};
            var replaced;
            replaced, next := Reconnect(connects, next);
            if !replaced {
              break;
            }
          case Unsubscribed =>
            Stop();
        }
      }
      if aborted {
        open := open - {client};
      }
    }

    /** Hands the records of one reply on, then moves the cursor behind the reply. */
    method HandleReply(entries: seq<Entry>, leaving: Leaving, decode: Decoder, filters: Filters)
      requires !aborted && |entries| <= batchSize
      modifies this`aborted, this`cursor, this`open, this`delivered
      ensures Flatten(delivered) == Flatten(old(delivered)) + Matches(entries, decode, filters)
      ensures forall batch | batch in delivered :: batch in old(delivered) || 0 < |batch| <= batchSize
      ensures aborted <==> leaving == LeavesDuringHandler
      ensures open == if aborted then old(open) - {client} else old(open)
      ensures !aborted ==> After(cursor) == Resume(After(old(cursor)), entries)
    {
      hide Matches;
      var records := Decode(entries, decode, filters);
      MatchesFit(entries, decode, filters);
      FlattenMore(delivered, records);
      if |records| > 0 {
        delivered := delivered + [records];
      }
      if leaving == LeavesDuringHandler {
        Stop();
      }
      if !aborted {
        cursor := if |entries| > 0 then entries[|entries| - 1].id else cursor;
      }
    }

    /** Tries until a client connects, the subscriber leaves, or the answers run out. */
    method Reconnect(connects: seq<ConnectOutcome>, from: nat) returns (replaced: bool, next: nat)
      requires !aborted && client < created && open == {} && from <= |connects|
      modifies this`aborted, this`client, this`created, this`open
      ensures OneClient() && (replaced, next) == Attempts(connects, from)
      ensures replaced ==> !aborted && open == {client} && old(created) <= client
      ensures !replaced ==> open == {}
    {
      replaced, next := false, from;
      while !aborted && next < |connects|
        invariant OneClient() && open == {} && from <= next <= |connects|
        invariant client == old(client) && old(created) <= created
        invariant Attempts(connects, from) == if aborted then (false, next) else Attempts(connects, next)
        decreases |connects| - next
      {
        var outcome := connects[next];
        next := next + 1;
        match outcome {
          case UnsubscribedAsleep =>
            Stop();
          case Refused =>
          case UnsubscribedConnecting =>
            // The new connection is closed again at once.
            created := created + 1;
            Stop();
          case Connected =>
            client, created := created, created + 1;
            open := {client};
            return true, next;
        }
      }
    }
  }

  /** Decodes one batch; what does not decode is passed over. */
  method Decode(entries: seq<Entry>, decode: Decoder, filters: Filters) returns (records: seq<Record>)
    ensures records == Matches(entries, decode, filters)
  {
    records := [];
    for index := 0 to |entries|
      invariant records == Matches(entries[..index], decode, filters)
    {
      var entry := entries[index];
      assert entries[..index + 1][..index] == entries[..index];
      var content := decode(entry.body);
      if content.None? {
        continue;
      }
      if !MatchesFilters(content.value, filters) {
        continue;
      }
      records := records + [Record(entry.id, content.value)];
    }
    assert entries[..|entries|] == entries;
  }

  lemma {:induction false} MatchesOfNothing(decode: Decoder, filters: Filters)
    ensures Matches([], decode, filters) == []
  {
  }

  lemma {:induction false} MatchesFit(s: seq<Entry>, decode: Decoder, filters: Filters)
    ensures |Matches(s, decode, filters)| <= |s|
  {
    if s != [] {
      MatchesFit(s[..|s| - 1], decode, filters);
    }
  }

  lemma PageFits(history: seq<Entry>, w: Window, cursor: Lower, batch: nat)
    ensures |PageOf(history, w, cursor, batch)| <= batch
  {
    XRangeFits(Held(history, w), 0, cursor, End, batch);
  }

  lemma {:induction false} XRangeFits(s: seq<Entry>, i: nat, lo: Lower, hi: Upper, count: nat)
    requires i <= |s|
    ensures |XRangeFrom(s, i, lo, hi, count)| <= count
    decreases |s| - i
  {
    if i < |s| && count > 0 {
      XRangeFits(s, i + 1, lo, hi, count - 1);
      XRangeFits(s, i + 1, lo, hi, count);
    }
  }

  // ------------------------------------------------------- what is delivered

  /** Every entry some reply could have shown was still there when it was reached. */
  ghost predicate NothingTrimmed(views: Views, p0: nat, replies: nat) {
    forall k: nat | k < replies :: views(k).lo <= p0
  }

  /**
    With nothing trimmed behind its start, a subscription delivers exactly the decodable
    matching records from there up to its cursor, in order and once each, whatever
    timeouts, failures, reconnects and handler errors lay between.
   */
  lemma {:induction false} DeliversEverything(history: seq<Entry>, views: Views, start: Lower, batch: nat, replies: nat)
    requires Sorted(history) && Moving(history, views) && NothingTrimmed(views, Skip(history, start), replies)
    ensures var scan := ScanAfter(history, views, start, batch, replies);
            && Skip(history, start) <= Skip(history, scan.cursor)
            && scan.pulled == history[Skip(history, start)..Skip(history, scan.cursor)]
  {
    hide Sorted, Moving, Skip, PageOf;
    if replies == 0 {
      assert history[Skip(history, start)..Skip(history, start)] == [];
    } else {
      DeliversEverything(history, views, start, batch, replies - 1);
      ViewsMove(history, views, replies - 1);
      NextReplyFollows(history, views(replies - 1), ScanAfter(history, views, start, batch, replies - 1), batch,
                       Skip(history, start));
    }
  }

  lemma {:induction false} NextReplyFollows(history: seq<Entry>, w: Window, scan: Scan, batch: nat, p0: nat)
    requires Sorted(history) && w.Within(history) && w.lo <= p0 <= Skip(history, scan.cursor)
    requires scan.pulled == history[p0..Skip(history, scan.cursor)]
    ensures var after := ScanStep(scan, PageOf(history, w, scan.cursor, batch));
            p0 <= Skip(history, after.cursor) && after.pulled == history[p0..Skip(history, after.cursor)]
  {
    hide Sorted, Skip, PageOf;
    var p, page := Skip(history, scan.cursor), PageOf(history, w, scan.cursor, batch);
    RoundTrip(history, w, scan.cursor, batch);
    if page != [] {
      JoinSlices(history, p0, p, p + |page|);
    }
  }

  /** A reply that is not full means the subscription has caught up with what it was shown. */
  lemma ShortReplyCatchesUp(history: seq<Entry>, views: Views, start: Lower, batch: nat, replies: nat)
    requires Sorted(history) && Moving(history, views) && replies > 0
    requires |PageOf(history, views(replies - 1), ScanAfter(history, views, start, batch, replies - 1).cursor, batch)| < batch
    ensures views(replies - 1).hi <= Max(Skip(history, ScanAfter(history, views, start, batch, replies).cursor),
                                         views(replies - 1).lo)
  {
    ViewsMove(history, views, replies - 1);
    hide Sorted, Moving, Skip, PageOf;
    var scan := ScanAfter(history, views, start, batch, replies - 1);
    RoundTrip(history, views(replies - 1), scan.cursor, batch);
  }

  /**
    Whatever is trimmed meanwhile, deliveries are strictly increasing and free of
    duplicates, lie behind the start, and pass over a matching record only if it had been
    trimmed.
   */
  lemma {:induction false} DeliversInOrder(history: seq<Entry>, views: Views, start: Lower, batch: nat, replies: nat,
                                           decode: Decoder, filters: Filters, i: nat)
    requires Sorted(history) && Moving(history, views)
    requires var scan := ScanAfter(history, views, start, batch, replies);
             Skip(history, start) <= i < Skip(history, scan.cursor)
    ensures var all := Matches(ScanAfter(history, views, start, batch, replies).pulled, decode, filters);
            && (forall j, k | 0 <= j < k < |all| :: Less(all[j].cursor, all[k].cursor))
            && ((replies > 0 && i < views(replies - 1).lo) || forall r | r in MatchOf(history[i], decode, filters) :: r in all)
  {
    ScanIsSound(history, views, start, batch, replies);
    hide Moving, Matches, Skip, ScanAfter;
    var pulled := ScanAfter(history, views, start, batch, replies).pulled;
    MatchesIncrease(pulled, decode, filters);
    if history[i] in pulled {
      MatchesHold(pulled, history[i], decode, filters);
    }
  }
}
