/** Idempotency keys: what a producer that retries may rely on, over every run. */
module DedupeTheorems {
  import opened Wrappers
  import opened StreamLog
  import opened StreamState
  import opened StreamInvariant

  /** Entries stored under one key lie at least the first one's window apart. */
  lemma {:induction false} SameKeyStoredOncePerWindow(steps: seq<Step>, i: nat, j: nat)
    requires i < j < |Run(steps).stamps|
    requires Run(steps).stamps[i].key.Some? && Run(steps).stamps[i].key == Run(steps).stamps[j].key
    ensures Run(steps).stamps[j].storedAt >= Run(steps).stamps[i].storedAt + Run(steps).stamps[i].ttl
  {
    EveryRunKeepsInv(steps);
  }

  /** What an append does with its j-th record depends on the records before it alone. */
  lemma {:induction false} ReplyAt(st: State, batch: seq<Input>, ttl: Millis, j: nat)
    requires j < |batch|
    ensures AppendAll(st, batch, ttl).1[j] == AppendOne(AppendAll(st, batch[..j], ttl).0, batch[j], ttl).1
    ensures AppendAll(st, batch[..j + 1], ttl).0 == AppendOne(AppendAll(st, batch[..j], ttl).0, batch[j], ttl).0
    decreases |batch|
  {
    var n := |batch| - 1;
    assert batch[..j + 1][..j] == batch[..j];
    if j < n {
      assert batch[..n][..j] == batch[..j];
      assert batch[..n][..j + 1] == batch[..j + 1];
      ReplyAt(st, batch[..n], ttl, j);
    } else {
      assert batch[..n + 1] == batch;
    }
  }

  /** A key once set keeps its slot through the rest of the batch. */
  lemma {:induction false} SlotSurvives(st: State, batch: seq<Input>, ttl: Millis, j: nat, key: string)
    requires j <= |batch| && key in AppendAll(st, batch[..j], ttl).0.dedupe
    ensures key in AppendAll(st, batch, ttl).0.dedupe
    ensures AppendAll(st, batch, ttl).0.dedupe[key] == AppendAll(st, batch[..j], ttl).0.dedupe[key]
    decreases |batch|
  {
    if j == |batch| {
      assert batch[..j] == batch;
    } else {
      var n := |batch| - 1;
      assert batch[..n][..j] == batch[..j];
      SlotSurvives(st, batch[..n], ttl, j, key);
    }
  }

  /** Whatever key a record carries is set once the record has been handled. */
  lemma SlotNamesReply(st: State, input: Input, ttl: Millis)
    requires input.key.Some?
    ensures var (after, reply) := AppendOne(st, input, ttl);
            input.key.value in after.dedupe && after.dedupe[input.key.value].id == reply.id
  {
  }

  /** Inside an open window a retry stores nothing and is answered with the first entry's id. */
  lemma {:induction false} RetryNamesTheFirstEntry(steps: seq<Step>, batch: seq<Input>, ttl: Millis, j: nat, i: nat)
    requires Run(steps).ensured && j < |batch| && i < |Run(steps).stamps| && i < |Run(steps).history|
    requires batch[j].key.Some? && Run(steps).stamps[i].key == batch[j].key
    requires Run(steps).now < Run(steps).stamps[i].storedAt + Run(steps).stamps[i].ttl
    ensures var (after, replies) := AppendStep(Run(steps), batch, ttl);
            |replies| == |batch| && replies[j].Duplicate? && replies[j].id == Run(steps).history[i].id
  {
    hide Next, LogInv, BoundaryInv, AppendOne;
    EveryRunKeepsInv(steps);
    var st := Run(steps);
    var key := batch[j].key.value;
    assert Open(st.stamps, st.now, i);
    assert key in st.dedupe && st.dedupe[key].id == st.history[i].id;
    assert batch[..j][..0] == [];
    SlotSurvives(st, batch[..j], ttl, 0, key);
    ReplyAt(st, batch, ttl, j);
    SeenReply(AppendAll(st, batch[..j], ttl).0, batch[j], ttl);
  }

  lemma SeenReply(st: State, input: Input, ttl: Millis)
    requires Seen(st, input)
    ensures AppendOne(st, input, ttl) == (st, Duplicate(st.dedupe[input.key.value].id,
                                                        BodyAt(st.entries, st.dedupe[input.key.value].id)))
  {
  }

  /** Repeats inside one batch are answered with the id of the key's first record. */
  lemma {:induction false} RepeatsInBatchShareTheId(st: State, batch: seq<Input>, ttl: Millis, i: nat, j: nat)
    requires i < j < |batch| && batch[i].key.Some? && batch[i].key == batch[j].key
    ensures var replies := AppendAll(st, batch, ttl).1;
            replies[j].Duplicate? && replies[j].id == replies[i].id
  {
    var key := batch[i].key.value;
    ReplyAt(st, batch, ttl, i);
    ReplyAt(st, batch, ttl, j);
    SlotNamesReply(AppendAll(st, batch[..i], ttl).0, batch[i], ttl);
    assert batch[..j][..i + 1] == batch[..i + 1];
    SlotSurvives(st, batch[..j], ttl, i + 1, key);
    SeenReply(AppendAll(st, batch[..j], ttl).0, batch[j], ttl);
  }

  /** Once a key that may expire has, a record of it is a duplicate exactly while some window of it is open. */
  lemma {:induction false} DuplicateExactlyWhileOpen(steps: seq<Step>, key: string, body: Body, ttl: Millis)
    requires Run(steps).ensured
    ensures var st := Run(steps + [Forget(key)]);
            var replies := AppendStep(st, [Input(body, Some(key))], ttl).1;
            && |replies| == 1
            && (replies[0].Duplicate? <==>
                  exists i :: 0 <= i < |st.stamps| && st.stamps[i].key == Some(key)
                              && st.now < st.stamps[i].storedAt + st.stamps[i].ttl)
  {
    hide AppendOne, Inv, ForgetStep, Seen;
    EveryRunKeepsInv(steps + [Forget(key)]);
    assert (steps + [Forget(key)])[..|steps|] == steps;
    var st, input := Run(steps + [Forget(key)]), Input(body, Some(key));
    assert [input][..0] == [];
    ReplyAt(st, [input], ttl, 0);
    OneReply(st, input, ttl);
    ForgottenOnceDue(Run(steps), key);
    SetExactlyWhileOpen(st, key);
  }

  lemma ForgottenOnceDue(st: State, key: string)
    ensures var after := ForgetStep(st, key);
            after.ensured == st.ensured && (key in after.dedupe ==> after.now < after.dedupe[key].deadline)
  {
  }

  /** A key that is not overdue is set exactly while a window of it is open. */
  lemma SetExactlyWhileOpen(st: State, key: string)
    requires Inv(st) && (key in st.dedupe ==> st.now < st.dedupe[key].deadline)
    ensures key in st.dedupe <==>
              exists i :: 0 <= i < |st.stamps| && st.stamps[i].key == Some(key)
                          && st.now < st.stamps[i].storedAt + st.stamps[i].ttl
  {
    hide LogInv, BoundaryInv, Apart;
    if key in st.dedupe {
      var i :| Names(st.history, st.stamps, i, key, st.dedupe[key]);
      assert st.dedupe[key].deadline == st.stamps[i].Deadline();
    }
    if i :| 0 <= i < |st.stamps| && st.stamps[i].key == Some(key) && st.now < st.stamps[i].storedAt + st.stamps[i].ttl {
      assert Open(st.stamps, st.now, i);
    }
  }

  /** A record without a key is always stored. */
  lemma OneReply(st: State, input: Input, ttl: Millis)
    ensures AppendOne(st, input, ttl).1.Stored? <==> input.key.None? || input.key.value !in st.dedupe
  {
  }

  /** The entries a batch stored, read off its replies alone. */
  function StoredEntries(batch: seq<Input>, replies: seq<Reply>): seq<Entry>
    requires |batch| == |replies|
  {
    if batch == [] then []
    else
      var n := |batch| - 1;
      StoredEntries(batch[..n], replies[..n])
        + if replies[n].Stored? then [Entry(replies[n].id, batch[n].body)] else []
  }

  /** Replies match inputs one for one, and together they account for everything appended. */
  lemma {:induction false} RepliesAccountForTheHistory(st: State, batch: seq<Input>, ttl: Millis)
    ensures var (after, replies) := AppendAll(st, batch, ttl);
            |replies| == |batch| && after.history == st.history + StoredEntries(batch, replies)
  {
    if batch != [] {
      var n := |batch| - 1;
      RepliesAccountForTheHistory(st, batch[..n], ttl);
      var replies := AppendAll(st, batch, ttl).1;
      assert replies[..n] == AppendAll(st, batch[..n], ttl).1;
    }
  }

  /** The body a duplicate reply carries: the first entry's while it is physically held, else none. */
  lemma DuplicateCarriesTheStoredBody(st: State, input: Input, ttl: Millis, i: nat)
    requires LogInv(st) && i < |st.history|
    requires Seen(st, input) && st.dedupe[input.key.value].id == st.history[i].id
    ensures AppendOne(st, input, ttl).1
         == Duplicate(st.history[i].id, if Gone(st) <= i then st.history[i].body else [])
  {
    BodyAtFinds(st.history, Gone(st), i);
  }

  lemma {:induction false} BodyAtFinds(history: seq<Entry>, g: nat, i: nat)
    requires Sorted(history) && g <= |history| && i < |history|
    ensures BodyAt(history[g..], history[i].id) == if g <= i then history[i].body else []
    decreases |history| - g
  {
    if g < |history| {
      assert history[g..][1..] == history[g + 1..];
      if g < i { assert Less(history[g].id, history[i].id); }
      if i < g { assert Less(history[i].id, history[g].id); }
      if g != i {
        BodyAtFinds(history, g + 1, i);
      }
    }
  }
}
