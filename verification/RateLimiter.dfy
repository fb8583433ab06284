/** The magic-link sliding-window limiter: accepted requests per key, pruned to the last hour. */
module RateLimiter {
  import opened Wrappers

  const MINUTE := 60_000
  const HOUR := 60 * 60_000

  datatype Options = Options(perMinute: nat, perHour: nat)

  // ---------------------------------------------------------------- the options

  /** What the caller writes: `false`, nothing, or numbers. */
  datatype Setting = Off | Given(perMinute: Option<real>, perHour: Option<real>)

  datatype ConfigError = PerMinuteNotPositive | PerHourNotPositive | PerHourBelowPerMinute

  predicate PositiveInteger(x: real) {
    x == x.Floor as real && x > 0.0
  }

  function Or(given: Option<real>, default: real): real {
    if given.Some? then given.value else default
  }

  /** These limits are the caller's own numbers, or the defaults. */
  predicate Says(setting: Setting, o: Options)
    requires setting.Given?
  {
    o.perMinute as real == Or(setting.perMinute, 5.0) && o.perHour as real == Or(setting.perHour, 20.0)
  }

  function ResolveRateLimitOptions(setting: Setting): (r: Result<Option<Options>, ConfigError>)
    ensures r.Ok? && r.value.Some? ==> 0 < r.value.value.perMinute <= r.value.value.perHour
    ensures setting == Given(None, None) ==> r == Ok(Some(Options(5, 20)))
    ensures r == Ok(None) <==> setting.Off?
    ensures r.Ok? && setting.Given? ==> r.value.Some? && Says(setting, r.value.value)
    ensures setting.Given? ==> (r.Ok? <==> exists o :: Says(setting, o) && 0 < o.perMinute <= o.perHour)
  {
    if setting.Off? then Ok(None)
    else
      var perMinute, perHour := Or(setting.perMinute, 5.0), Or(setting.perHour, 20.0);
      if !PositiveInteger(perMinute) then Err(PerMinuteNotPositive)
      else if !PositiveInteger(perHour) then Err(PerHourNotPositive)
      else if perHour < perMinute then Err(PerHourBelowPerMinute)
      else Ok(Some(Options(perMinute.Floor, perHour.Floor)))
  }

  // ------------------------------------------------------------------ one key

  /** The times after a cutoff, in order. */
  function Since(times: seq<int>, cutoff: int): (recent: seq<int>)
    ensures |recent| <= |times|
  {
    if times == [] then []
    else
      var n := |times| - 1;
      if times[n] > cutoff then Since(times[..n], cutoff) + [times[n]] else Since(times[..n], cutoff)
  }

  /** Whether a key with these accepted times may have another. */
  predicate Admits(o: Options, accepted: seq<int>, now: int) {
    |Since(accepted, now - HOUR)| < o.perHour && |Since(accepted, now - MINUTE)| < o.perMinute
  }

  /** The reference: it keeps every accepted time for good. */
  function FullStep(o: Options, accepted: seq<int>, now: int): seq<int> {
    if Admits(o, accepted, now) then accepted + [now] else accepted
  }

  /** The limiter: it keeps the last hour only. */
  function PrunedStep(o: Options, kept: seq<int>, now: int): seq<int> {
    FullStep(o, Since(kept, now - HOUR), now)
  }

  function FullRun(o: Options, requests: seq<int>): seq<int> {
    if requests == [] then [] else FullStep(o, FullRun(o, requests[..|requests| - 1]), requests[|requests| - 1])
  }

  function PrunedRun(o: Options, requests: seq<int>): seq<int> {
    if requests == [] then [] else PrunedStep(o, PrunedRun(o, requests[..|requests| - 1]), requests[|requests| - 1])
  }

  lemma {:induction false} SinceTwice(times: seq<int>, early: int, late: int)
    requires early <= late
    ensures Since(Since(times, early), late) == Since(times, late)
  {
    if times != [] {
      var n := |times| - 1;
      SinceTwice(times[..n], early, late);
      var before := Since(times[..n], early);
      if times[n] > early {
        assert (before + [times[n]])[..|before|] == before;
      }
    }
  }

  lemma {:induction false} SinceMore(times: seq<int>, now: int, cutoff: int)
    ensures Since(times + [now], cutoff) == if now > cutoff then Since(times, cutoff) + [now] else Since(times, cutoff)
  {
    assert (times + [now])[..|times|] == times;
  }

  ghost predicate NonDecreasing(times: seq<int>) {
    forall i, j | 0 <= i <= j < |times| :: times[i] <= times[j]
  }

  /** Two histories that agree on the last hour decide alike. */
  lemma {:induction false} SameHourAdmits(o: Options, kept: seq<int>, full: seq<int>, now: int)
    requires kept == Since(full, now - HOUR)
    ensures Admits(o, kept, now) <==> Admits(o, full, now)
  {
    SinceTwice(full, now - HOUR, now - HOUR);
    SinceTwice(full, now - HOUR, now - MINUTE);
  }

  predicate NotBefore(requests: seq<int>, now: int) {
    requests != [] ==> requests[|requests| - 1] <= now
  }

  /** A request made after time `t` has dropped it, although at `now` it is inside the hour. */
  predicate Drops(t: int, later: int, now: int) {
    now < t + HOUR <= later
  }

  /** No request ever looks back, over a later one, at a time that one has dropped. */
  ghost predicate NeverMissed(times: seq<int>) {
    forall i, j, k | 0 <= i < j < k < |times| :: !Drops(times[i], times[j], times[k])
  }

  /** A clock that does not go back is enough, but not needed: it may go back while nothing was dropped. */
  lemma SteadyClockNeverMisses(times: seq<int>)
    requires NonDecreasing(times)
    ensures NeverMissed(times)
  {
  }

  lemma {:induction false} AcceptedWereRequested(o: Options, requests: seq<int>)
    ensures forall t | t in FullRun(o, requests) :: t in requests
  {
    hide Admits;
    if requests != [] {
      var n := |requests| - 1;
      AcceptedWereRequested(o, requests[..n]);
      assert requests == requests[..n] + [requests[n]];
    }
  }

  /** Times between two cutoffs make the difference. */
  lemma {:induction false} SinceGap(times: seq<int>, early: int, late: int)
    requires early <= late && forall i | 0 <= i < |times| :: !(early < times[i] <= late)
    ensures Since(times, early) == Since(times, late)
  {
    if times != [] {
      var n := |times| - 1;
      SinceGap(times[..n], early, late);
    }
  }

  /** One request keeps the histories the same as far back as they will matter, when it drops nothing that will. */
  lemma {:induction false} StepsAgree(o: Options, kept: seq<int>, full: seq<int>, last: int, now: int)
    requires Since(kept, last - HOUR) == Since(full, last - HOUR)
    requires forall i | 0 <= i < |full| :: !Drops(full[i], last, now)
    ensures Since(PrunedStep(o, kept, last), now - HOUR) == Since(FullStep(o, full, last), now - HOUR)
  {
    hide Since, Admits;
    var hour := Since(kept, last - HOUR);
    SameHourAdmits(o, hour, full, last);
    SinceMore(hour, last, now - HOUR);
    SinceMore(full, last, now - HOUR);
    if last <= now {
      SinceTwice(kept, last - HOUR, now - HOUR);
      SinceTwice(full, last - HOUR, now - HOUR);
    } else {
      SinceGap(full, now - HOUR, last - HOUR);
      SinceLoose(full, last - HOUR, now - HOUR);
    }
  }

  /** A looser cutoff after a tight one changes nothing. */
  lemma {:induction false} SinceLoose(times: seq<int>, late: int, early: int)
    requires early <= late
    ensures Since(Since(times, late), early) == Since(times, late)
  {
    if times != [] {
      var n := |times| - 1;
      SinceLoose(times[..n], late, early);
      SinceMore(Since(times[..n], late), times[n], early);
    }
  }

  /** The limiter has the last hour right at a request. */
  predicate HourRight(o: Options, times: seq<int>, m: nat)
    requires m < |times|
  {
    Since(PrunedRun(o, times[..m]), times[m] - HOUR) == Since(FullRun(o, times[..m]), times[m] - HOUR)
  }

  lemma {:induction false} SameRecent(o: Options, times: seq<int>, m: nat)
    requires NeverMissed(times) && m < |times|
    ensures HourRight(o, times, m)
  {
    hide Since, FullStep, PrunedStep, Drops;
    if m > 0 {
      var earlier, last := times[..m - 1], times[m - 1];
      assert times[..m][..m - 1] == earlier;
      SameRecent(o, times, m - 1);
      AcceptedWereRequested(o, earlier);
      var full := FullRun(o, earlier);
      forall q | 0 <= q < |full| ensures !Drops(full[q], last, times[m]) {
        assert full[q] in full;
        var i: nat :| i < m - 1 && earlier[i] == full[q];
        assert times[i] == full[q];
      }
      StepsAgree(o, PrunedRun(o, earlier), FullRun(o, earlier), last, times[m]);
    }
  }

  /** With the last hour right the pruned history decides as the full one would. */
  lemma {:induction false} HourDecides(o: Options, times: seq<int>, m: nat)
    requires m < |times| && HourRight(o, times, m)
    ensures Admits(o, PrunedRun(o, times[..m]), times[m]) <==> Admits(o, FullRun(o, times[..m]), times[m])
  {
    SinceTwice(PrunedRun(o, times[..m]), times[m] - HOUR, times[m] - MINUTE);
    SinceTwice(FullRun(o, times[..m]), times[m] - HOUR, times[m] - MINUTE);
    hide Since, PrunedRun, FullRun;
  }

  /** While no request looks back at a dropped time, the pruned history decides as the full one would. */
  lemma {:induction false} PrunedDecidesAsFull(o: Options, requests: seq<int>, now: int)
    requires NeverMissed(requests + [now])
    ensures Admits(o, PrunedRun(o, requests), now) <==> Admits(o, FullRun(o, requests), now)
  {
    hide Admits, PrunedRun, FullRun, HourRight, NeverMissed;
    SameRecent(o, requests + [now], |requests|);
    HourDecides(o, requests + [now], |requests|);
    assert (requests + [now])[..|requests|] == requests;
  }

  // ------------------------------------------------- and only then, for every setting

  /** Limits no request comes up against. */
  function Generous(times: seq<int>): Options {
    Options(|times| + 1, |times| + 1)
  }

  lemma {:induction false} AllAccepted(o: Options, times: seq<int>)
    requires o.perHour > |times| && o.perMinute > |times|
    ensures FullRun(o, times) == times && |PrunedRun(o, times)| <= |times|
  {
    if times != [] {
      var n := |times| - 1;
      AllAccepted(o, times[..n]);
      assert times == times[..n] + [times[n]];
    }
  }

  lemma {:induction false} PrunedAll(o: Options, times: seq<int>)
    requires times != [] && o.perHour > |times| && o.perMinute > |times|
    ensures var n := |times| - 1;
            PrunedRun(o, times) == Since(PrunedRun(o, times[..n]), times[n] - HOUR) + [times[n]]
  {
    AllAccepted(o, times[..|times| - 1]);
  }

  lemma {:induction false} SinceOfSince(times: seq<int>, a: int, b: int)
    ensures |Since(Since(times, a), b)| <= |Since(times, b)|
  {
    if a <= b {
      SinceTwice(times, a, b);
    } else {
      SinceLoose(times, a, b);
      LaterSinceIsShorter(times, b, a);
    }
  }

  /** The kept history is never longer than the full one. */
  lemma {:induction false} PrunedIsThinner(o: Options, times: seq<int>, cutoff: int)
    requires o.perHour > |times| && o.perMinute > |times|
    ensures |Since(PrunedRun(o, times), cutoff)| <= |Since(times, cutoff)|
  {
    hide Since, PrunedRun;
    if times == [] {
      assert PrunedRun(o, times) == [] by { AllAccepted(o, times); }
    } else {
      var n := |times| - 1;
      PrunedIsThinner(o, times[..n], cutoff);
      PrunedAll(o, times);
      var kept := PrunedRun(o, times[..n]);
      SinceOfSince(kept, times[n] - HOUR, cutoff);
      SinceMore(Since(kept, times[n] - HOUR), times[n], cutoff);
      assert times == times[..n] + [times[n]];
      SinceMore(times[..n], times[n], cutoff);
    }
  }

  /** A time between two cutoffs counts only for the early one. */
  lemma {:induction false} SinceLoses(times: seq<int>, i: nat, early: int, late: int)
    requires i < |times| && early < times[i] <= late
    ensures |Since(times, late)| < |Since(times, early)|
  {
    var n := |times| - 1;
    if i < n {
      SinceLoses(times[..n], i, early, late);
    } else {
      LaterSinceIsShorter(times[..n], early, late);
    }
  }

  /** Once a time inside the hour has been dropped, the kept history stays shorter. */
  lemma {:induction false} DroppedIsMissed(o: Options, times: seq<int>, i: nat, j: nat, cutoff: int)
    requires o.perHour > |times| && o.perMinute > |times|
    requires i < j < |times| && cutoff < times[i] <= times[j] - HOUR
    ensures |Since(PrunedRun(o, times), cutoff)| < |Since(times, cutoff)|
  {
    hide Since, PrunedRun;
    var n := |times| - 1;
    var kept, last := PrunedRun(o, times[..n]), times[n];
    PrunedAll(o, times);
    SinceMore(Since(kept, last - HOUR), last, cutoff);
    assert times == times[..n] + [last];
    SinceMore(times[..n], last, cutoff);
    if j < n {
      DroppedIsMissed(o, times[..n], i, j, cutoff);
      SinceOfSince(kept, last - HOUR, cutoff);
    } else {
      SinceLoose(kept, last - HOUR, cutoff);
      PrunedIsThinner(o, times[..n], last - HOUR);
      SinceLoses(times[..n], i, cutoff, last - HOUR);
    }
  }

  /** The limiter has the last hour right at every request, whatever its limits, exactly when no request looks back
      at a dropped time. */
  lemma {:induction false} HourRightExactlyUnlessMissed(times: seq<int>)
    ensures NeverMissed(times) <==> forall o: Options, m: nat | m < |times| :: HourRight(o, times, m)
  {
    hide HourRight, Since, PrunedRun, FullRun;
    if NeverMissed(times) {
      forall o: Options, m: nat | m < |times| ensures HourRight(o, times, m) {
        SameRecent(o, times, m);
      }
    } else {
      var i, j, k :| 0 <= i < j < k < |times| && Drops(times[i], times[j], times[k]);
      MissedMakesWrong(times, i, j, k);
    }
  }

  lemma MissedMakesWrong(times: seq<int>, i: nat, j: nat, k: nat)
    requires i < j < k < |times| && Drops(times[i], times[j], times[k])
    ensures !HourRight(Generous(times), times, k)
  {
    hide Since, PrunedRun, FullRun;
    AllAccepted(Generous(times), times[..k]);
    DroppedIsMissed(Generous(times), times[..k], i, j, times[k] - HOUR);
  }

  /** The limiter never keeps more than an hour's worth. */
  lemma {:induction false} KeepsAtMostPerHour(o: Options, requests: seq<int>)
    ensures |PrunedRun(o, requests)| <= o.perHour || PrunedRun(o, requests) == []
  {
    if requests != [] {
      var n := |requests| - 1;
      var kept := Since(PrunedRun(o, requests[..n]), requests[n] - HOUR);
      KeepsAtMostPerHour(o, requests[..n]);
      SinceTwice(PrunedRun(o, requests[..n]), requests[n] - HOUR, requests[n] - HOUR);
    }
  }

  // ------------------------------------------------------------------- windows

  /** The accepted times in (end - length, end]. */
  function Window(times: seq<int>, end: int, length: nat): seq<int> {
    if times == [] then []
    else
      var n := |times| - 1;
      if end - length < times[n] <= end then Window(times[..n], end, length) + [times[n]]
      else Window(times[..n], end, length)
  }

  lemma {:induction false} WindowAtEnd(times: seq<int>, end: int, length: nat)
    requires forall i | 0 <= i < |times| :: times[i] <= end
    ensures Window(times, end, length) == Since(times, end - length)
  {
    if times != [] {
      WindowAtEnd(times[..|times| - 1], end, length);
    }
  }

  lemma {:induction false} LaterSinceIsShorter(times: seq<int>, early: int, late: int)
    requires early <= late
    ensures |Since(times, late)| <= |Since(times, early)|
  {
    if times != [] {
      LaterSinceIsShorter(times[..|times| - 1], early, late);
    }
  }

  lemma StepBounded(o: Options, before: seq<int>, now: int)
    requires forall i | 0 <= i < |before| :: before[i] <= now
    ensures forall i | 0 <= i < |FullStep(o, before, now)| :: FullStep(o, before, now)[i] <= now
  {
  }

  lemma {:induction false} AcceptedAreRequests(o: Options, requests: seq<int>, now: int)
    requires NonDecreasing(requests) && NotBefore(requests, now)
    ensures forall i | 0 <= i < |FullRun(o, requests)| :: FullRun(o, requests)[i] <= now
  {
    hide FullStep;
    if requests != [] {
      var n := |requests| - 1;
      assert n > 0 ==> requests[n - 1] <= requests[n];
      AcceptedAreRequests(o, requests[..n], now);
      AcceptedAreRequests(o, requests[..n], requests[n]);
      StepBounded(o, FullRun(o, requests[..n]), requests[n]);
    }
  }

  lemma {:induction false} WindowMore(times: seq<int>, now: int, end: int, length: nat)
    ensures end < now ==> Window(times + [now], end, length) == Window(times, end, length)
  {
    assert (times + [now])[..|times|] == times;
  }

  /** One more accepted time adds to a window only when that window already held fewer than a trailing one. */
  lemma {:induction false} LastWindow(before: seq<int>, now: int, end: int, length: nat)
    requires forall i | 0 <= i < |before| :: before[i] <= now
    ensures |Window(before + [now], end, length)|
         <= if end < now then |Window(before, end, length)| else |Since(before, now - length)| + 1
  {
    WindowMore(before, now, end, length);
    hide Window, Since;
    if end >= now {
      WindowAtEnd(before + [now], end, length);
      SinceMore(before, now, end - length);
      LaterSinceIsShorter(before, now - length, end - length);
    }
  }

  lemma {:induction false} WindowsStayLimited(o: Options, before: seq<int>, now: int, end: int)
    requires forall i | 0 <= i < |before| :: before[i] <= now
    requires |Window(before, end, MINUTE)| <= o.perMinute && |Window(before, end, HOUR)| <= o.perHour
    ensures |Window(FullStep(o, before, now), end, MINUTE)| <= o.perMinute
    ensures |Window(FullStep(o, before, now), end, HOUR)| <= o.perHour
  {
    hide Window, Since;
    if Admits(o, before, now) {
      LastWindow(before, now, end, MINUTE);
      LastWindow(before, now, end, HOUR);
    }
  }

  /** No window, wherever it ends, holds more accepted requests than its limit. */
  lemma {:induction false} EveryWindowIsLimited(o: Options, requests: seq<int>, end: int)
    requires NonDecreasing(requests)
    ensures |Window(FullRun(o, requests), end, 60_000)| <= o.perMinute
    ensures |Window(FullRun(o, requests), end, 3_600_000)| <= o.perHour
  {
    hide FullStep;
    if requests != [] {
      var n := |requests| - 1;
      EveryWindowIsLimited(o, requests[..n], end);
      assert n > 0 ==> requests[n - 1] <= requests[n];
      AcceptedAreRequests(o, requests[..n], requests[n]);
      WindowsStayLimited(o, FullRun(o, requests[..n]), requests[n], end);
    }
  }

  /** The shortest way to miss one: back an hour after a request an hour later. */
  lemma SetBackMisses()
    ensures !NeverMissed([0, HOUR, 0])
  {
    var times := [0, HOUR, 0];
    assert Drops(times[0], times[1], times[2]);
  }

  /** A clock set back over a dropped time lets the pruned history accept what the full one would refuse. */
  lemma ClockSetBackAdmitsMore()
    ensures var o, requests := Options(2, 2), [0, HOUR];
            Admits(o, PrunedRun(o, requests), 0) && !Admits(o, FullRun(o, requests), 0)
  {
    var o := Options(2, 2);
    assert [0, HOUR][..1] == [0] && [0][..0] == [] && [HOUR][..0] == [];
    assert Since([0], 0) == [] && Since([0], HOUR - MINUTE) == [];
    assert FullRun(o, [0]) == [0] == PrunedRun(o, [0]);
    assert FullRun(o, [0, HOUR]) == [0, HOUR] && PrunedRun(o, [0, HOUR]) == [HOUR];
    assert Since([0], -HOUR) == [0];
    assert Since([0, HOUR], -HOUR) == [0, HOUR];
    assert |Since([HOUR], -HOUR)| <= 1 && |Since([HOUR], -MINUTE)| <= 1;
  }

  // ------------------------------------------------------------------ the class

  /** Admits on what a limiter keeps for a key. */
  predicate MayConsume(options: Option<Options>, kept: seq<int>, now: int) {
    options.None? || Admits(options.value, kept, now)
  }

  class MagicLinkRateLimiter {
    const options: Option<Options>
    var attempts: map<string, seq<int>>

    constructor (options: Option<Options>)
      ensures attempts == map[] && this.options == options
    {
      this.options, attempts := options, map[];
    }

    /** What is kept for a key. */
    function Kept(key: string): seq<int>
      reads this
    {
      if key in attempts then attempts[key] else []
    }

    /** The filter over a key's times. */
    method GetRecentAttempts(key: string, now: int) returns (recent: seq<int>, minuteAttempts: seq<int>)
      ensures recent == Since(Kept(key), now - HOUR) && minuteAttempts == Since(Kept(key), now - MINUTE)
    {
      hide Since;
      var kept := Kept(key);
      recent, minuteAttempts := [], [];
      SinceNone(now - HOUR);
      SinceNone(now - MINUTE);
      for i := 0 to |kept|
        invariant recent == Since(kept[..i], now - HOUR)
        invariant minuteAttempts == Since(Since(kept[..i], now - HOUR), now - MINUTE)
      {
        assert kept[..i + 1] == kept[..i] + [kept[i]];
        SinceMore(kept[..i], kept[i], now - HOUR);
        if kept[i] > now - HOUR {
          SinceMore(recent, kept[i], now - MINUTE);
          recent := recent + [kept[i]];
          if kept[i] > now - MINUTE {
            minuteAttempts := minuteAttempts + [kept[i]];
          }
        }
      }
      assert kept[..|kept|] == kept;
      SinceTwice(kept, now - HOUR, now - MINUTE);
    }

    method CanConsume(key: string, now: int) returns (can: bool)
      ensures can <==> MayConsume(options, Kept(key), now)
    {
      if options.None? {
        return true;
      }
      var recent, minuteAttempts := GetRecentAttempts(key, now);
      can := |recent| < options.value.perHour && |minuteAttempts| < options.value.perMinute;
    }

    /** One request: other keys are as before, and this one takes the limiter's step. */
    method TryConsume(key: string, now: int) returns (accepted: bool)
      modifies this
      ensures accepted <==> MayConsume(options, old(Kept(key)), now)
      ensures options.None? ==> attempts == old(attempts)
      ensures options.Some? ==> attempts == old(attempts)[key := PrunedStep(options.value, old(Kept(key)), now)]
    {
      if options.None? {
        return true;
      }
      var recent, minuteAttempts := GetRecentAttempts(key, now);
      SinceTwice(Kept(key), now - HOUR, now - HOUR);
      SinceTwice(Kept(key), now - HOUR, now - MINUTE);
      if |minuteAttempts| >= options.value.perMinute || |recent| >= options.value.perHour {
        attempts := attempts[key := recent];
        return false;
      }
      attempts := attempts[key := recent + [now]];
      accepted := true;
    }
  }

  lemma PrefixNeverMissed(times: seq<int>, k: nat)
    requires NeverMissed(times) && k <= |times|
    ensures NeverMissed(times[..k])
  {
    hide Drops;
  }

  lemma {:induction false} SinceNone(cutoff: int)
    ensures Since([], cutoff) == []
  {
  }

  /** A limiter's whole life for one key: every answer is the one the full history would give. */
  method ConsumeAll(limiter: MagicLinkRateLimiter, key: string, requests: seq<int>) returns (answers: seq<bool>)
    requires limiter.options.Some? && key !in limiter.attempts && NeverMissed(requests)
    modifies limiter
    ensures limiter.Kept(key) == PrunedRun(limiter.options.value, requests)
    ensures |answers| == |requests|
    ensures forall i | 0 <= i < |requests| ::
              answers[i] <==> Admits(limiter.options.value, FullRun(limiter.options.value, requests[..i]), requests[i])
    ensures limiter.attempts - {key} == old(limiter.attempts) - {key}
  {
    hide PrunedStep, FullStep, Admits, NeverMissed;
    answers := [];
    for i := 0 to |requests|
      invariant |answers| == i && limiter.Kept(key) == PrunedRun(limiter.options.value, requests[..i])
      invariant limiter.attempts - {key} == old(limiter.attempts) - {key}
      invariant forall j | 0 <= j < i ::
                  answers[j] <==> Admits(limiter.options.value, FullRun(limiter.options.value, requests[..j]), requests[j])
    {
      var accepted := limiter.TryConsume(key, requests[i]);
      assert requests[..i] + [requests[i]] == requests[..i + 1];
      PrefixNeverMissed(requests, i + 1);
      PrunedDecidesAsFull(limiter.options.value, requests[..i], requests[i]);
      assert requests[..i + 1][..i] == requests[..i];
      answers := answers + [accepted];
    }
    assert requests[..|requests|] == requests;
  }
}
