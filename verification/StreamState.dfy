/**
  One broker stream in Redis, as a state and the steps that interleave on it: the four
  scripts, the clock, and the expiry of deduplication keys. `history` holds every entry
  ever appended; the scripts neither read nor write it.
 */
module StreamState {
  import opened Wrappers
  import opened StreamLog
  import opened Retention

  type Millis = n: nat | 0 < n witness 1

  /** A deduplication key that is still set: the id it names and when it may expire. */
  datatype Slot = Slot(id: StreamId, deadline: nat)

  /** What the history remembers of an append beside the entry. */
  datatype Stamp = Stamp(key: Option<string>, storedAt: nat, ttl: Millis) {
    function Deadline(): nat { storedAt + ttl }
  }

  datatype State = State(
    ensured: bool,
    limits: Limits,
    entries: seq<Entry>,
    lastGenerated: StreamId,
    retainedBytes: int,
    lastTrimmedId: Option<StreamId>,
    lastId: Option<StreamId>,
    dedupe: map<string, Slot>,
    now: nat,
    history: seq<Entry>,
    stamps: seq<Stamp>)

  /** The cursor in front of every entry. */
  const ZERO := StreamId(0, 0)

  const INITIAL := State(false, UNLIMITED, [], ZERO, 0, None, None, map[], 0, [], [])

  /** One record of an append: its encoded body and its idempotency key, if any. */
  datatype Input = Input(body: Body, key: Option<string>)

  datatype Reply = Stored(id: StreamId) | Duplicate(id: StreamId, body: Body)

  // ------------------------------------------------------------ the boundary

  /** The id of the k-th entry, the last one a prefix of length k holds. */
  function LastOf(s: seq<Entry>, k: nat): Option<StreamId>
    requires k <= |s|
  {
    if k == 0 then None else Some(s[k - 1].id)
  }

  /** The boundary moves to a candidate only when the candidate is newer. */
  function Advance(current: Option<StreamId>, candidate: Option<StreamId>): Option<StreamId> {
    if candidate.Some? && (current.None? || Less(current.value, candidate.value)) then candidate else current
  }

  /** Moves only the logical boundary behind the first k entries. */
  function MarkPrefix(st: State, k: nat): State
    requires k <= |st.entries|
  {
    st.(lastTrimmedId := Advance(st.lastTrimmedId, LastOf(st.entries, k)))
  }

  /** Removes the first k entries, with their bytes and the boundary. */
  function RemovePrefix(st: State, k: nat): State
    requires k <= |st.entries|
  {
    MarkPrefix(st, k).(entries := st.entries[k..], retainedBytes := Bytes(st.entries[k..]))
  }

  // --------------------------------------------------------------- the steps

  function EnsureStep(st: State, limits: Limits): State {
    if st.ensured then st else st.(ensured := true, limits := limits, retainedBytes := 0)
  }

  function TrimStep(st: State): State {
    if !st.ensured then st else RemovePrefix(st, Expendable(st.entries, st.limits, st.now))
  }

  function AgeStep(st: State): State {
    if !st.ensured then st else RemovePrefix(st, AgePrefix(st.entries, st.limits, st.now))
  }

  /** The id XADD * generates: the server clock, or just after the newest id ever given. */
  function NextId(last: StreamId, now: nat): StreamId {
    if now > last.ms then StreamId(now, 0) else StreamId(last.ms, last.sequence + 1)
  }

  predicate Seen(st: State, input: Input) {
    input.key.Some? && input.key.value in st.dedupe
  }

  function AppendOne(st: State, input: Input, ttl: Millis): (State, Reply) {
    if Seen(st, input) then
      var id := st.dedupe[input.key.value].id;
      (st, Duplicate(id, BodyAt(st.entries, id)))
    else
      var id := NextId(st.lastGenerated, st.now);
      var entry := Entry(id, input.body);
      (st.(entries := st.entries + [entry],
           lastGenerated := id,
           retainedBytes := st.retainedBytes + |input.body|,
           dedupe := if input.key.Some? then st.dedupe[input.key.value := Slot(id, st.now + ttl)] else st.dedupe,
           history := st.history + [entry],
           stamps := st.stamps + [Stamp(input.key, st.now, ttl)]),
       Stored(id))
  }

  function AppendAll(st: State, batch: seq<Input>, ttl: Millis): (r: (State, seq<Reply>))
    ensures |r.1| == |batch|
  {
    if batch == [] then (st, [])
    else
      var (before, replies) := AppendAll(st, batch[..|batch| - 1], ttl);
      var (after, reply) := AppendOne(before, batch[|batch| - 1], ttl);
      (after, replies + [reply])
  }

  /** After a batch that stored something: the newest id, and the boundary of the limits. */
  function SettleAppend(st: State): State {
    MarkPrefix(st, OverLimit(st.entries, st.limits)).(lastId := Some(st.lastGenerated))
  }

  predicate AnyStored(replies: seq<Reply>) {
    exists i | 0 <= i < |replies| :: replies[i].Stored?
  }

  function AppendStep(st: State, batch: seq<Input>, ttl: Millis): (State, seq<Reply>) {
    if !st.ensured then (st, [])
    else
      var (after, replies) := AppendAll(st, batch, ttl);
      (if AnyStored(replies) then SettleAppend(after) else after, replies)
  }

  /** Redis may drop a deduplication key at any moment from its deadline on, and not before. */
  function ForgetStep(st: State, key: string): State {
    if key in st.dedupe && st.dedupe[key].deadline <= st.now then st.(dedupe := st.dedupe - {key}) else st
  }

  datatype Step =
    | Ensure(limits: Limits)
    | Append(batch: seq<Input>, ttl: Millis)
    | Trim
    | Age
    | Tick(ms: nat)
    | Forget(key: string)

  function Next(st: State, step: Step): State {
    match step
    case Ensure(limits) => EnsureStep(st, limits)
    case Append(batch, ttl) => AppendStep(st, batch, ttl).0
    case Trim => TrimStep(st)
    case Age => AgeStep(st)
    case Tick(ms) => st.(now := st.now + ms)
    case Forget(key) => ForgetStep(st, key)
  }

  /** Any interleaving of steps, from a stream nobody has ensured. */
  function Run(steps: seq<Step>): State {
    if steps == [] then INITIAL else Next(Run(steps[..|steps| - 1]), steps[|steps| - 1])
  }
}
