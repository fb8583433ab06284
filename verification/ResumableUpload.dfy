/** The resumable upload: chunked PUTs against a session that persists any part of each. */
module ResumableUpload {
  import opened Wrappers
  import opened ChunkBody
  import opened Decimals

  const MULTIPART_LIMIT_BYTES := 5 * 1024 * 1024
  const RESUMABLE_CHUNK_BYTES := 8 * 1024 * 1024
  const MAX_STALLED_ATTEMPTS := 3

  /** Non-final chunks must be multiples of this. */
  const GRANULE := 256 * 1024

  // ------------------------------------------------------------- the Range header

  const RANGE_PREFIX := "bytes=0-"

  predicate IsRange(header: string) {
    RANGE_PREFIX < header && forall c | c in header[|RANGE_PREFIX|..] :: IsDigit(c)
  }

  /** The persisted byte count a `Range: bytes=0-N` header states. */
  function PersistedOffset(header: Option<string>): Option<nat> {
    if header.Some? && IsRange(header.value) then Some(ParseInt(header.value[|RANGE_PREFIX|..]) + 1) else None
  }

  /** The header a session sends: none until it has a byte. */
  function RangeHeader(persisted: nat): Option<string> {
    if persisted == 0 then None else Some(RANGE_PREFIX + Decimal(persisted - 1))
  }

  /** What a session has persisted survives the header. */
  lemma RangeRoundTrip(persisted: nat)
    ensures PersistedOffset(RangeHeader(persisted)) == if persisted == 0 then None else Some(persisted)
  {
    if persisted > 0 {
      var header := RANGE_PREFIX + Decimal(persisted - 1);
      assert header[|RANGE_PREFIX|..] == Decimal(persisted - 1);
      ParseDecimal(persisted - 1);
    }
  }

  /** A header states a count exactly when it is the prefix with at least one digit behind it, and nothing else. */
  lemma HeaderStatesCount(header: string)
    ensures PersistedOffset(Some(header)).Some? <==>
            8 < |header| && header[..8] == "bytes=0-" && forall i | 8 <= i < |header| :: '0' <= header[i] <= '9'
    ensures PersistedOffset(None) == None
  {
    assert |RANGE_PREFIX| == 8;
    if 8 < |header| {
      assert forall i | 8 <= i < |header| :: header[8..][i - 8] == header[i] && header[i] in header[8..];
      assert forall c | c in header[8..] :: exists i :: 8 <= i < |header| && header[i] == c by {
        forall c | c in header[8..] ensures exists i :: 8 <= i < |header| && header[i] == c {
          var k :| 0 <= k < |header| - 8 && header[8..][k] == c;
          assert header[k + 8] == c;
        }
      }
    }
  }

  // ------------------------------------------------------------------- the session

  datatype Answer = Incomplete(range: Option<string>) | Stored | Refused

  /** One PUT: where its Content-Range starts, its bytes, what the session held then, and the answer. */
  datatype Put = Put(start: nat, part: seq<byte>, held: nat, answer: Answer)

  /** What an honest session may answer to a PUT, and what it may hold afterwards: it persists any prefix of a PUT
      that continues what it has and stays within the declared total, and it may fail at any time. */
  predicate MayAnswer(held: seq<byte>, total: nat, start: nat, part: seq<byte>, after: seq<byte>, answer: Answer) {
    if start == |held| && start + |part| <= total then
      held <= after <= held + part
      && (answer.Refused? || answer == if |after| == total then Stored else Incomplete(RangeHeader(|after|)))
    else after == held && answer.Refused?
  }

  /** An upload session: it appends a prefix of each PUT that continues what it has, or refuses. One that
      acknowledges in granules keeps whole granules only, until the end; a generous one keeps all it may of every PUT
      and never fails on its own. */
  class UploadSession {
    const total: nat
    const inGranules: bool
    const generous: bool
    var stored: seq<byte>
    var puts: seq<Put>

    ghost predicate Valid()
      reads this
    {
      |stored| <= total && (inGranules ==> |stored| == total || |stored| % GRANULE == 0)
    }

    constructor (total: nat, inGranules: bool, generous: bool)
      ensures Valid() && stored == [] && puts == [] && this.total == total
      ensures this.inGranules == inGranules && this.generous == generous
    {
      this.total, this.inGranules, this.generous, stored, puts := total, inGranules, generous, [], [];
    }

    /** The session may keep what ends here. */
    predicate MayEnd(end: nat) {
      inGranules ==> end == total || end % GRANULE == 0
    }

    /** The session's own choices: how many of the bytes it persists, and whether it answers or fails. */
    method Receive(start: nat, part: seq<byte>) returns (answer: Answer)
      requires Valid() && part != []
      modifies this
      ensures puts == old(puts) + [Put(start, part, |old(stored)|, answer)]
      ensures MayAnswer(old(stored), total, start, part, stored, answer)
      ensures answer.Refused? || Valid()
      ensures generous && start == |old(stored)| && start + |part| <= total && MayEnd(start + |part|) ==>
                !answer.Refused? && stored == old(stored) + part
    {
      var refuse: bool :| generous ==> !refuse;
      var k: nat :| k <= |part| && (generous ==> k == |part|);
      var end, held := start + k, |stored|;
      answer := Refused;
      if start == |stored| && start + |part| <= total {
        if refuse {
          stored := stored + part[..k];
        } else {
          if MayEnd(end) {
            stored := stored + part[..k];
          }
          answer := if |stored| == total then Stored else Incomplete(RangeHeader(|stored|));
        }
      }
      puts := puts + [Put(start, part, held, answer)];
    }
  }

  // -------------------------------------------------------------------- the loop

  datatype Outcome = Completed | StalledOut | RefusedBySession | EndedEarly

  /** Where the chunk that holds byte `start` ends. */
  function ChunkEnd(start: nat, length: nat): nat {
    var end := (start / RESUMABLE_CHUNK_BYTES + 1) * RESUMABLE_CHUNK_BYTES;
    if end <= length then end else length
  }

  /** A PUT starts exactly where the session is, and carries the rest of the chunk. */
  ghost predicate Continues(put: Put, body: seq<byte>) {
    put.start == put.held < |body| && put.start < ChunkEnd(put.start, |body|)
    && put.part == body[put.start..ChunkEnd(put.start, |body|)]
  }

  /** A PUT that is not the last piece of the body has a length the protocol allows. */
  predicate InGranules(put: Put, length: nat) {
    put.start % GRANULE == 0 && (put.start + |put.part| == length || |put.part| % GRANULE == 0)
  }

  ghost predicate AllContinue(puts: seq<Put>, body: seq<byte>) {
    forall i | 0 <= i < |puts| :: Continues(puts[i], body)
  }

  ghost predicate AllInGranules(puts: seq<Put>, length: nat) {
    forall i | 0 <= i < |puts| :: InGranules(puts[i], length)
  }

  /** The last `n` PUTs all brought nothing: the session held the same before each and after the last. */
  ghost predicate LastStalled(puts: seq<Put>, n: nat, held: nat) {
    n <= |puts| && forall i | |puts| - n <= i < |puts| :: puts[i].held == held && puts[i].answer.Incomplete?
  }

  /** What the whole upload promises at any moment. */
  ghost predicate OnTrack(session: UploadSession, body: seq<byte>)
    reads session
  {
    session.stored <= body
    && AllContinue(session.puts, body)
    && (session.inGranules ==> AllInGranules(session.puts, |body|))
  }

  /** What becomes of a chunk that ends here, when the session is generous. */
  ghost predicate GenerousChunk(session: UploadSession, end: nat, over: Option<Outcome>) {
    (end == session.total ==> over == Some(Completed))
    && (end < session.total && session.MayEnd(end) ==> over.None?)
    && (end > session.total ==> over == Some(RefusedBySession))
  }

  /** Sends one chunk until the session has it all, or the upload is over. */
  method SendChunk(session: UploadSession, ghost body: seq<byte>, chunk: seq<byte>, offset: nat)
    returns (over: Option<Outcome>)
    requires session.Valid() && OnTrack(session, body)
    requires |session.stored| == offset < session.total && offset % RESUMABLE_CHUNK_BYTES == 0
    requires offset < |body| && chunk == body[offset..ChunkEnd(offset, |body|)]
    requires |session.puts| <= MAX_STALLED_ATTEMPTS * offset
    modifies session
    ensures OnTrack(session, body)
    ensures |session.puts| <= MAX_STALLED_ATTEMPTS * (offset + |chunk|)
    ensures over.None? ==> session.Valid() && |session.stored| == offset + |chunk| < session.total
    ensures over == Some(Completed) ==> |session.stored| == session.total == offset + |chunk|
    ensures over == Some(StalledOut) ==> LastStalled(session.puts, MAX_STALLED_ATTEMPTS, |session.stored|)
    ensures over == Some(RefusedBySession) ==> session.puts != [] && session.puts[|session.puts| - 1].answer.Refused?
    ensures over != Some(EndedEarly)
    ensures session.generous ==> GenerousChunk(session, offset + |chunk|, over)
  {
    hide OnTrack, LastStalled, PersistedOffset, RangeHeader, ChunkEnd;
    var sent: nat, stalled: nat := 0, 0;
    NoneStalled(session.puts, |session.stored|);
    while sent < |chunk|
      invariant session.Valid() && OnTrack(session, body)
      invariant sent <= |chunk| && |session.stored| == offset + sent < session.total
      invariant stalled < MAX_STALLED_ATTEMPTS && LastStalled(session.puts, stalled, |session.stored|)
      invariant |session.puts| <= MAX_STALLED_ATTEMPTS * (offset + sent) + stalled
      invariant sent == |chunk| ==> stalled == 0
      invariant session.generous && session.MayEnd(offset + |chunk|) ==> sent == 0 || sent == |chunk|
      invariant session.generous && offset + |chunk| > session.total ==> sent == 0
      decreases |chunk| - sent, MAX_STALLED_ATTEMPTS - stalled
    {
      var part := chunk[sent..];
      ghost var before, puts := session.stored, session.puts;
      PartIsRest(body, chunk, offset, sent);
      TrackHolds(session, body);
      var answer := session.Receive(offset + sent, part);
      assert session.puts[..|session.puts| - 1] == puts;
      StaysOnTrack(session, body, before, part);
      NoneStalled(session.puts, |session.stored|);
      match answer {
        case Incomplete(range) =>
          var persisted := PersistedOffset(range);
          RangeRoundTrip(|session.stored|);
          var next := if persisted.None? then sent else Max(persisted.value - offset, sent);
          if next <= sent {
            OneMoreStalled(puts, session.puts[|puts|], stalled, |before|);
            stalled := stalled + 1;
            if stalled >= MAX_STALLED_ATTEMPTS {
              return Some(StalledOut);
            }
          } else {
            stalled := 0;
          }
          sent := next;
        case Stored =>
          EndsChunk(body, chunk, offset, sent, before, session);
          return Some(Completed);
        case Refused => return Some(RefusedBySession);
      }
    }
    over := None;
  }

  lemma NoneStalled(puts: seq<Put>, held: nat)
    ensures LastStalled(puts, 0, held)
  {
  }

  lemma OneMoreStalled(puts: seq<Put>, put: Put, n: nat, held: nat)
    requires LastStalled(puts, n, held) && put.held == held && put.answer.Incomplete?
    ensures LastStalled(puts + [put], n + 1, held)
  {
  }

  lemma TrackHolds(session: UploadSession, body: seq<byte>)
    requires OnTrack(session, body)
    ensures session.stored <= body && AllContinue(session.puts, body)
    ensures session.inGranules ==> AllInGranules(session.puts, |body|)
  {
  }

  /** A session that is complete has stored up to the end of a chunk. */
  lemma EndsChunk(body: seq<byte>, chunk: seq<byte>, offset: nat, sent: nat, before: seq<byte>, session: UploadSession)
    requires sent < |chunk| && |before| == offset + sent
    requires MayAnswer(before, session.total, offset + sent, chunk[sent..], session.stored, Stored)
    ensures |session.stored| == session.total == offset + |chunk|
  {
  }

  lemma PartIsRest(body: seq<byte>, chunk: seq<byte>, offset: nat, sent: nat)
    requires offset % RESUMABLE_CHUNK_BYTES == 0 && offset < |body|
    requires chunk == body[offset..ChunkEnd(offset, |body|)] && sent < |chunk|
    ensures ChunkEnd(offset + sent, |body|) == ChunkEnd(offset, |body|) == offset + |chunk| > offset + sent
    ensures chunk[sent..] == body[offset + sent..ChunkEnd(offset + sent, |body|)] != []
  {
  }

  /** One more PUT from where the session is keeps the upload on track. */
  lemma StaysOnTrack(session: UploadSession, body: seq<byte>, before: seq<byte>, part: seq<byte>)
    requires session.puts != [] && before <= body && |before| < ChunkEnd(|before|, |body|)
    requires var n := |session.puts| - 1;
             var put := session.puts[n];
             AllContinue(session.puts[..n], body)
             && (session.inGranules ==> AllInGranules(session.puts[..n], |body|))
             && put.start == put.held == |before| && put.part == part
    requires part == body[|before|..ChunkEnd(|before|, |body|)]
    requires before <= session.stored <= before + part
    requires session.inGranules ==> |before| % GRANULE == 0
    ensures OnTrack(session, body)
  {
    var n := |session.puts| - 1;
    assert before + part <= body;
    forall i | 0 <= i < n + 1
      ensures Continues(session.puts[i], body) && (session.inGranules ==> InGranules(session.puts[i], |body|))
    {
      if i < n {
        assert session.puts[i] == session.puts[..n][i];
      }
    }
  }

  lemma {:induction false} ChunkAt(body: seq<byte>, i: nat)
    requires i < |Slices(body, RESUMABLE_CHUNK_BYTES)|
    ensures var offset, chunk := i * RESUMABLE_CHUNK_BYTES, Slices(body, RESUMABLE_CHUNK_BYTES)[i];
            offset < |body| && chunk == body[offset..ChunkEnd(offset, |body|)]
            && 0 < |chunk| <= RESUMABLE_CHUNK_BYTES
            && offset + |chunk| <= |body| && offset % RESUMABLE_CHUNK_BYTES == 0
            && (offset + |chunk| == |body|
                || (offset + |chunk| < |body| && (offset + |chunk|) % RESUMABLE_CHUNK_BYTES == 0))
            && (i + 1 < |Slices(body, RESUMABLE_CHUNK_BYTES)| ==> offset + |chunk| == (i + 1) * RESUMABLE_CHUNK_BYTES < |body|)
            && (i + 1 == |Slices(body, RESUMABLE_CHUNK_BYTES)| ==> offset + |chunk| == |body|)
  {
    hide Slices;
    SlicesAt(body, RESUMABLE_CHUNK_BYTES, i);
  }

  /** When an upload completes unless the session fails it: the declared size is right, or it is too small and falls
      between two chunks. */
  predicate Completes(length: nat, total: nat) {
    length == total || (length > total && total % (8 * 1024 * 1024) == 0)
  }

  /** How an upload to a generous session ends, by the length of the body. */
  ghost predicate GenerousOutcome(session: UploadSession, length: nat, outcome: Outcome) {
    (outcome == Completed <==> Completes(length, session.total))
    && (length > session.total && !Completes(length, session.total) ==> outcome == RefusedBySession)
    && (length < session.total && session.MayEnd(length) ==> outcome == EndedEarly)
  }

  lemma CompletesAt(length: nat, total: nat, end: nat)
    requires end == total && (end == length || (end < length && end % RESUMABLE_CHUNK_BYTES == 0))
    ensures Completes(length, total)
  {
  }

  /** The chunk that ends an upload to a generous session decides its outcome. */
  lemma GenerousChunkDecides(session: UploadSession, length: nat, offset: nat, end: nat, outcome: Outcome)
    requires GenerousChunk(session, end, Some(outcome)) && (outcome == Completed ==> end == session.total)
    requires offset < end <= offset + RESUMABLE_CHUNK_BYTES && offset < session.total
    requires offset % RESUMABLE_CHUNK_BYTES == 0
    requires end == length || (end < length && end % RESUMABLE_CHUNK_BYTES == 0)
    ensures GenerousOutcome(session, length, outcome)
  {
  }

  lemma EndsEarly(session: UploadSession, length: nat)
    requires length < session.total
    ensures GenerousOutcome(session, length, EndedEarly)
  {
  }

  /** Every chunk in turn: the whole body is stored, or the reason it is not. */
  method ResumableUpload(session: UploadSession, chunks: seq<seq<byte>>, ghost body: seq<byte>)
    returns (outcome: Outcome)
    requires session.Valid() && session.stored == [] && session.puts == [] && session.total > 0
    requires chunks == Slices(body, RESUMABLE_CHUNK_BYTES)
    modifies session
    ensures OnTrack(session, body)
    ensures |session.puts| <= MAX_STALLED_ATTEMPTS * |body|
    ensures outcome == Completed ==> |session.stored| == session.total
    ensures outcome == Completed ==> Completes(|body|, session.total)
    ensures outcome == Completed ==> (session.stored == body <==> |body| == session.total)
    ensures session.generous ==> GenerousOutcome(session, |body|, outcome)
    ensures outcome == EndedEarly ==> session.stored == body && |body| < session.total
    ensures outcome == StalledOut ==> LastStalled(session.puts, MAX_STALLED_ATTEMPTS, |session.stored|)
    ensures outcome == RefusedBySession ==> session.puts != [] && session.puts[|session.puts| - 1].answer.Refused?
  {
    var offset: nat := 0;
    for i := 0 to |chunks|
      invariant session.Valid() && OnTrack(session, body)
      invariant offset == |session.stored| < session.total
      invariant i < |chunks| ==> offset == i * RESUMABLE_CHUNK_BYTES
      invariant i == |chunks| ==> offset == |body|
      invariant |session.puts| <= MAX_STALLED_ATTEMPTS * offset <= MAX_STALLED_ATTEMPTS * |body|
    {
      hide OnTrack, Slices, LastStalled, ChunkEnd, MayAnswer, AllContinue, AllInGranules;
      hide GenerousChunk, GenerousOutcome, Completes;
      ChunkAt(body, i);
      var over := SendChunk(session, body, chunks[i], offset);
      if over.Some? {
        if over.value == Completed {
          CompletesAt(|body|, session.total, offset + |chunks[i]|);
          TrackHolds(session, body);
        }
        if session.generous {
          GenerousChunkDecides(session, |body|, offset, offset + |chunks[i]|, over.value);
        }
        return over.value;
      }
      offset := offset + |chunks[i]|;
    }
    EndsEarly(session, |body|);
    outcome := EndedEarly;
  }

  /** A stream of which too little is declared, namely any number of whole chunks: the upload reports success with a
      body that was cut, and never says so. */
  method DeclaredSizeCutsTheBody(arrivals: seq<seq<byte>>, declared: nat) returns (outcome: Outcome, stored: seq<byte>)
    requires 0 < declared < |Flatten(arrivals)| && declared % RESUMABLE_CHUNK_BYTES == 0
    ensures outcome == Completed && stored == Flatten(arrivals)[..declared] != Flatten(arrivals)
  {
    hide Slices, Flatten, AllContinue, AllInGranules;
    var chunks, held := ChunkStream(arrivals, RESUMABLE_CHUNK_BYTES);
    var session := new UploadSession(declared, true, true);
    outcome := ResumableUpload(session, chunks, Flatten(arrivals));
    stored := session.stored;
  }

  // -------------------------------------------------------------- which upload it is

  /** A body, with the bytes a stream will turn out to have. */
  datatype Body = Buffered(bytes: seq<byte>) | Stream(bytes: seq<byte>)

  datatype Path = Multipart(bytes: seq<byte>) | Chunked(size: nat) | OneShot

  /** A buffer's own length counts; the declared size is for streams. */
  function UploadSize(body: Body, sizeBytes: Option<nat>): Option<nat> {
    match body
    case Buffered(bytes) => Some(|bytes|)
    case Stream(_) => sizeBytes
  }

  function UploadPath(body: Body, sizeBytes: Option<nat>): Path {
    var size := UploadSize(body, sizeBytes);
    if size == Some(0) then Multipart([])
    else if body.Buffered? && size.Some? && size.value <= MULTIPART_LIMIT_BYTES then Multipart(body.bytes)
    else if size.None? then OneShot
    else Chunked(size.value)
  }

  /** Whether the chosen upload is one that can carry the whole body, assuming the session plays along. */
  predicate CarriesBody(path: Path, body: Body) {
    match path
    case Multipart(bytes) => bytes == body.bytes
    case Chunked(size) => size == |body.bytes|
    case OneShot => true
  }

  /** Buffers and streams without a declared size are always carried whole; a stream with one exactly when it is right. */
  lemma PathCarriesBody(body: Body, sizeBytes: Option<nat>)
    ensures CarriesBody(UploadPath(body, sizeBytes), body) <==>
            (body.Stream? && sizeBytes.Some? ==> sizeBytes.value == |body.bytes|)
    ensures UploadPath(body, sizeBytes).OneShot? <==> body.Stream? && sizeBytes.None?
    ensures UploadPath(body, sizeBytes).Chunked? <==>
              if body.Stream? then sizeBytes.Some? && sizeBytes.value > 0 else |body.bytes| > 5 * 1024 * 1024
    ensures UploadPath(body, sizeBytes).Chunked? && body.Stream? ==> UploadPath(body, sizeBytes).size == sizeBytes.value
  {
    if body.bytes == [] {
      assert |body.bytes| == 0;
    }
  }
}
