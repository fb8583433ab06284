/**
  The three retention rules. Each removes a prefix of the stream; here a prefix is its
  length, and both prefixes the scripts compute are shown to be least.
 */
module Retention {
  import opened Wrappers
  import opened StreamLog

  /** Written once, when the stream is ensured. */
  datatype Limits = Limits(maxAgeMs: Option<nat>, maxRecords: Option<nat>, maxBytes: Option<nat>)

  const UNLIMITED := Limits(None, None, None)

  function CountPrefix(s: seq<Entry>, limits: Limits): (k: nat)
    ensures k <= |s|
  {
    if limits.maxRecords.Some? && |s| > limits.maxRecords.value then |s| - limits.maxRecords.value else 0
  }

  function BytesPrefixTo(s: seq<Entry>, target: nat): (k: nat)
    ensures k <= |s|
  {
    if Bytes(s) <= target then 0 else 1 + BytesPrefixTo(s[1..], target)
  }

  function BytesPrefix(s: seq<Entry>, limits: Limits): (k: nat)
    ensures k <= |s|
  {
    if limits.maxBytes.Some? then BytesPrefixTo(s, limits.maxBytes.value) else 0
  }

  /** A zero byte limit keeps nothing, not even entries with an empty body. */
  function BytesTrimPrefix(s: seq<Entry>, limits: Limits): (k: nat)
    ensures k <= |s|
  {
    if limits.maxBytes == Some(0) then |s| else BytesPrefix(s, limits)
  }

  function OldestKept(maxAgeMs: nat, now: nat): StreamId {
    StreamId(Max(0, now - maxAgeMs), 0)
  }

  function AgePrefix(s: seq<Entry>, limits: Limits, now: nat): (k: nat)
    ensures k <= |s|
  {
    match limits.maxAgeMs
    case None => 0
    case Some(age) => if age == 0 then |s| else Reach(s, Before(OldestKept(age, now)))
  }

  /** The prefix APPEND puts behind the logical boundary. */
  function OverLimit(s: seq<Entry>, limits: Limits): (k: nat)
    ensures k <= |s|
  {
    Max(CountPrefix(s, limits), BytesPrefix(s, limits))
  }

  /** The prefix TRIM removes. */
  function Expendable(s: seq<Entry>, limits: Limits, now: nat): (k: nat)
    ensures k <= |s|
  {
    Max(Max(CountPrefix(s, limits), AgePrefix(s, limits, now)), BytesTrimPrefix(s, limits))
  }

  // ------------------------------------------------ what the limits ask for

  predicate WithinLimits(s: seq<Entry>, limits: Limits) {
    && (limits.maxRecords.Some? ==> |s| <= limits.maxRecords.value)
    && (limits.maxBytes.Some? ==> Bytes(s) <= limits.maxBytes.value)
  }

  /** An entry's id carries the time it was stored; a zero age keeps nothing. */
  predicate YoungEnough(s: seq<Entry>, limits: Limits, now: nat) {
    match limits.maxAgeMs
    case None => true
    case Some(age) =>
      if age == 0 then s == []
      else forall i | 0 <= i < |s| :: now <= s[i].id.ms + age
  }

  predicate Keepable(s: seq<Entry>, limits: Limits, now: nat) {
    && WithinLimits(s, limits)
    && YoungEnough(s, limits, now)
    && (limits.maxBytes == Some(0) ==> s == [])
  }

  lemma {:induction false} BytesPrefixToIsLeast(s: seq<Entry>, target: nat, k: nat)
    requires k <= |s|
    ensures Bytes(s[k..]) <= target <==> BytesPrefixTo(s, target) <= k
    decreases |s|
  {
    if k == 0 {
      assert s[0..] == s;
    } else {
      assert s[1..][k - 1..] == s[k..];
      BytesPrefixToIsLeast(s[1..], target, k - 1);
      if Bytes(s) <= target {
        BytesSplit(s[..k], s[k..]);
        assert s == s[..k] + s[k..];
      }
    }
  }

  /** A suffix meets the record and byte limits exactly when it starts at or behind the mark. */
  lemma OverLimitIsLeast(s: seq<Entry>, limits: Limits, k: nat)
    requires k <= |s|
    ensures WithinLimits(s[k..], limits) <==> OverLimit(s, limits) <= k
  {
    if limits.maxBytes.Some? {
      BytesPrefixToIsLeast(s, limits.maxBytes.value, k);
    }
  }

  lemma OldestKeptIsYoung(id: StreamId, age: nat, now: nat)
    ensures Below(id, Before(OldestKept(age, now))) <==> id.ms + age < now
  {
  }

  /** A suffix is young enough exactly when it starts at or behind the prefix AGE removes. */
  lemma AgePrefixIsLeast(s: seq<Entry>, limits: Limits, now: nat, k: nat)
    requires Sorted(s) && k <= |s|
    ensures YoungEnough(s[k..], limits, now) <==> AgePrefix(s, limits, now) <= k
  {
    if limits.maxAgeMs.Some? && limits.maxAgeMs.value != 0 {
      hide Below, OldestKept;
      var age := limits.maxAgeMs.value;
      ReachCuts(s, Before(OldestKept(age, now)));
      forall i | 0 <= i < |s| ensures i < AgePrefix(s, limits, now) <==> s[i].id.ms + age < now {
        OldestKeptIsYoung(s[i].id, age, now);
      }
      assert forall i | 0 <= i < |s| - k :: s[k..][i] == s[k + i];
      if AgePrefix(s, limits, now) > k {
        assert s[k..][0] == s[k];
      }
    }
  }

  /** TRIM removes the least prefix whose removal satisfies all three rules. */
  lemma ExpendableIsLeast(s: seq<Entry>, limits: Limits, now: nat, k: nat)
    requires Sorted(s) && k <= |s|
    ensures Keepable(s[k..], limits, now) <==> Expendable(s, limits, now) <= k
  {
    OverLimitIsLeast(s, limits, k);
    AgePrefixIsLeast(s, limits, now, k);
  }

  // ------------------------------------ how the prefixes move with the stream

  /** Dropping k entries shortens the mark by k, down to nothing. */
  lemma OverLimitTail(s: seq<Entry>, limits: Limits, k: nat)
    requires k <= |s|
    ensures OverLimit(s[k..], limits) == Max(0, OverLimit(s, limits) - k)
  {
    var m := OverLimit(s, limits);
    var least := Max(0, m - k);
    assert s[k..][least..] == s[k + least..];
    OverLimitIsLeast(s, limits, k + least);
    OverLimitIsLeast(s[k..], limits, least);
    var n := OverLimit(s[k..], limits);
    assert s[k..][n..] == s[k + n..];
    OverLimitIsLeast(s[k..], limits, n);
    OverLimitIsLeast(s, limits, k + n);
  }

  /** The mark only grows as entries are added. */
  lemma OverLimitGrows(s: seq<Entry>, more: seq<Entry>, limits: Limits)
    ensures OverLimit(s, limits) <= OverLimit(s + more, limits)
  {
    var n := OverLimit(s + more, limits);
    if n < |s| {
      assert (s + more)[n..] == s[n..] + more;
      BytesSplit(s[n..], more);
      OverLimitIsLeast(s + more, limits, n);
      OverLimitIsLeast(s, limits, n);
    }
  }

  /** The mark never exceeds what a trim would remove at once. */
  lemma OverLimitWithinExpendable(s: seq<Entry>, limits: Limits, now: nat)
    ensures OverLimit(s, limits) <= Expendable(s, limits, now)
  {
  }

  lemma {:induction false} BytesPrefixToTail(s: seq<Entry>, target: nat, k: nat)
    requires k <= |s|
    ensures k + BytesPrefixTo(s[k..], target) == Max(k, BytesPrefixTo(s, target))
  {
    var l := Limits(None, None, Some(target));
    OverLimitTail(s, l, k);
  }
}
