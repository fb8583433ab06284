/**
  Scanning forward through a stream that other processes append to and trim between the
  round trips. The history is everything that will have been appended by the end; each
  round trip sees the part of it that is physically there at that moment.
 */
module Paging {
  import opened Wrappers
  import opened StreamLog

  /** The positions of the history that are in the stream: [lo, hi). */
  datatype Window = Window(lo: nat, hi: nat) {
    predicate Within(history: seq<Entry>) { lo <= hi <= |history| }
  }

  /** The window each round trip sees. */
  type Views = nat -> Window

  /** Trims only take from the head, appends only add at the end. */
  ghost predicate Moving(history: seq<Entry>, views: Views) {
    && (forall k: nat :: views(k).Within(history))
    && (forall k: nat, l: nat | k <= l :: views(k).lo <= views(l).lo && views(k).hi <= views(l).hi)
  }

  ghost predicate Still(views: Views) {
    forall k: nat :: views(k) == views(0)
  }

  function Held(history: seq<Entry>, w: Window): seq<Entry> {
    if w.Within(history) then history[w.lo..w.hi] else []
  }

  /** A scan in progress: where the next round trip starts, and what came back so far. */
  datatype Scan = Scan(cursor: Lower, pulled: seq<Entry>)

  function Resume(cursor: Lower, page: seq<Entry>): Lower {
    if page == [] then cursor else After(page[|page| - 1].id)
  }

  function PageOf(history: seq<Entry>, w: Window, cursor: Lower, batch: nat): seq<Entry> {
    XRange(Held(history, w), cursor, End, batch)
  }

  function ScanStep(scan: Scan, page: seq<Entry>): Scan {
    Scan(Resume(scan.cursor, page), scan.pulled + page)
  }

  /** The scan after n round trips. */
  function ScanAfter(history: seq<Entry>, views: Views, start: Lower, batch: nat, n: nat): Scan {
    if n == 0 then Scan(start, [])
    else
      var scan := ScanAfter(history, views, start, batch, n - 1);
      ScanStep(scan, PageOf(history, views(n - 1), scan.cursor, batch))
  }

  lemma ScanMore(history: seq<Entry>, views: Views, start: Lower, batch: nat, n: nat)
    ensures ScanAfter(history, views, start, batch, 0) == Scan(start, [])
    ensures var scan := ScanAfter(history, views, start, batch, n);
            ScanStep(scan, PageOf(history, views(n), scan.cursor, batch)) == ScanAfter(history, views, start, batch, n + 1)
  {
  }

  lemma ContentSorted(history: seq<Entry>, w: Window)
    requires Sorted(history)
    ensures Sorted(Held(history, w)) && Reach(Held(history, w), End) == |Held(history, w)|
  {
    ReachIs(Held(history, w), End, |Held(history, w)|);
  }

  lemma {:induction false} ContentCuts(history: seq<Entry>, w: Window, cursor: Lower)
    requires Sorted(history) && w.Within(history)
    ensures Skip(Held(history, w), cursor) == Min(Max(Skip(history, cursor), w.lo), w.hi) - w.lo
  {
    ContentSorted(history, w);
    SkipCuts(history, cursor);
    hide Sorted, Above;
    var p := Min(Max(Skip(history, cursor), w.lo), w.hi) - w.lo;
    assert forall i | 0 <= i < w.hi - w.lo :: Held(history, w)[i] == history[w.lo + i];
    SkipIs(Held(history, w), cursor, p);
  }

  /** A page is a slice of the history, from the cursor or from the head of the stream. */
  lemma {:induction false} PageIsSlice(history: seq<Entry>, w: Window, cursor: Lower, batch: nat)
    requires Sorted(history) && w.Within(history)
    ensures var q := Max(Skip(history, cursor), w.lo);
            PageOf(history, w, cursor, batch) == if q <= w.hi then history[q..Min(q + batch, w.hi)] else []
  {
    hide XRange, Skip, Sorted, Reach;
    ContentSorted(history, w);
    ContentCuts(history, w, cursor);
    XRangeSlice(Held(history, w), cursor, End, batch);
    var i := Min(Max(Skip(history, cursor), w.lo), w.hi) - w.lo;
    SliceOfSlice(history, w.lo, w.hi, i, Min(i + batch, w.hi - w.lo));
  }

  lemma {:induction false} ResumeSkips(history: seq<Entry>, q: nat, r: nat, cursor: Lower)
    requires Sorted(history) && q < r <= |history|
    ensures Skip(history, Resume(cursor, history[q..r])) == r
  {
    hide Sorted, Skip;
    assert history[q..r][r - q - 1] == history[r - 1];
    SkipAt(history, r);
  }

  /** One round trip: nothing, or a slice from the cursor or from the head when trims overtook it. */
  lemma {:induction false} RoundTrip(history: seq<Entry>, w: Window, cursor: Lower, batch: nat)
    requires Sorted(history) && w.Within(history)
    ensures var page, q := PageOf(history, w, cursor, batch), Max(Skip(history, cursor), w.lo);
            if page == [] then w.hi <= q || batch == 0
            else q + |page| <= w.hi && |page| <= batch && page == history[q..q + |page|]
                 && Skip(history, Resume(cursor, page)) == q + |page|
    ensures var page, q := PageOf(history, w, cursor, batch), Max(Skip(history, cursor), w.lo);
            |page| < batch ==> w.hi <= q + |page|
  {
    hide PageOf, Skip, Sorted;
    PageIsSlice(history, w, cursor, batch);
    var page, q := PageOf(history, w, cursor, batch), Max(Skip(history, cursor), w.lo);
    if page != [] {
      ResumeSkips(history, q, q + |page|, cursor);
    }
  }

  // -------------------------------------------------- under concurrent steps

  /**
    A sound scan of the positions [p0, p): strictly increasing, nothing from elsewhere,
    and an entry is passed over only if it lies before lo, hence had been trimmed.
   */
  ghost predicate Sound(history: seq<Entry>, p0: nat, p: nat, lo: nat, pulled: seq<Entry>) {
    && p0 <= p <= |history|
    && Sorted(pulled)
    && (forall e | e in pulled :: e in history[p0..p])
    && (forall i | p0 <= i < p :: history[i] in pulled || i < lo)
  }

  lemma SoundLater(history: seq<Entry>, p0: nat, p: nat, lo: nat, pulled: seq<Entry>, lo': nat)
    requires Sound(history, p0, p, lo, pulled) && lo <= lo'
    ensures Sound(history, p0, p, lo', pulled)
  {
  }

  lemma SoundStep(history: seq<Entry>, p0: nat, p: nat, lo: nat, pulled: seq<Entry>, q: nat, next: nat)
    requires Sorted(history) && Sound(history, p0, p, lo, pulled)
    requires p <= q <= next <= |history| && (q == p || q <= lo)
    ensures Sound(history, p0, next, lo, pulled + history[q..next])
  {
    var page := history[q..next];
    SortedJoin(history, pulled, p0, p, q, next);
    forall e | e in pulled + page ensures e in history[p0..next] {
      if e in pulled {
        assert history[p0..next] == history[p0..p] + history[p..next];
      } else {
        assert history[p0..next] == history[p0..q] + page;
      }
    }
    forall i | p0 <= i < next ensures history[i] in pulled + page || i < lo {
      if i >= q {
        assert page[i - q] == history[i];
      }
    }
  }

  lemma SortedJoin(history: seq<Entry>, before: seq<Entry>, a: nat, b: nat, c: nat, d: nat)
    requires Sorted(history) && Sorted(before) && a <= b <= c <= d <= |history|
    requires forall e | e in before :: e in history[a..b]
    ensures Sorted(before + history[c..d])
  {
    forall i, j | 0 <= i < |before| && c <= j < d ensures Less(before[i].id, history[j].id) {
      assert before[i] in history[a..b];
      var k :| 0 <= k < b - a && history[a..b][k] == before[i];
      assert history[a..b][k] == history[a + k];
    }
  }

  /** Trims seen by the first n round trips. */
  function TrimmedBy(views: Views, n: nat): nat {
    if n == 0 then 0 else views(n - 1).lo
  }

  lemma {:induction false} RoundTripIsSound(history: seq<Entry>, w: Window, scan: Scan, batch: nat, p0: nat, lo: nat)
    requires Sorted(history) && w.Within(history) && lo <= w.lo
    requires Sound(history, p0, Skip(history, scan.cursor), lo, scan.pulled)
    ensures var after := ScanStep(scan, PageOf(history, w, scan.cursor, batch));
            Sound(history, p0, Skip(history, after.cursor), w.lo, after.pulled)
  {
    hide Sorted, Skip, Sound, PageOf;
    var p, page := Skip(history, scan.cursor), PageOf(history, w, scan.cursor, batch);
    RoundTrip(history, w, scan.cursor, batch);
    SoundLater(history, p0, p, lo, scan.pulled, w.lo);
    if page == [] {
      assert scan.pulled + page == scan.pulled;
    } else {
      var q := Max(p, w.lo);
      SoundStep(history, p0, p, w.lo, scan.pulled, q, q + |page|);
    }
  }

  /** Under concurrent appends and trims every scan is sound. */
  lemma {:induction false} ScanIsSound(history: seq<Entry>, views: Views, start: Lower, batch: nat, n: nat)
    requires Sorted(history) && Moving(history, views)
    ensures var scan := ScanAfter(history, views, start, batch, n);
            Sound(history, Skip(history, start), Skip(history, scan.cursor), TrimmedBy(views, n), scan.pulled)
  {
    hide Moving, Sorted, Skip, Sound, PageOf;
    var p0 := Skip(history, start);
    if n == 0 {
      SoundEmpty(history, p0);
    } else {
      ViewsMove(history, views, n - 1);
      ScanIsSound(history, views, start, batch, n - 1);
      var scan := ScanAfter(history, views, start, batch, n - 1);
      RoundTripIsSound(history, views(n - 1), scan, batch, p0, TrimmedBy(views, n - 1));
    }
  }

  lemma SoundEmpty(history: seq<Entry>, p0: nat)
    requires p0 <= |history|
    ensures Sound(history, p0, p0, 0, [])
  {
  }

  lemma ViewsMove(history: seq<Entry>, views: Views, n: nat)
    requires Moving(history, views)
    ensures views(n).Within(history) && TrimmedBy(views, n) <= views(n).lo
  {
  }

  // ---------------------------------------------------------- nobody else around

  /** The scan of s from start that has returned everything up to position p. */
  function ScanUpTo(s: seq<Entry>, start: Lower, p: nat): Scan
    requires Skip(s, start) <= p <= |s|
  {
    Scan(Resume(start, s[Skip(s, start)..p]), s[Skip(s, start)..p])
  }

  lemma {:induction false} ScanUpToStep(s: seq<Entry>, start: Lower, p: nat, batch: nat)
    requires Sorted(s) && Skip(s, start) <= p <= |s|
    ensures var page, q := XRange(s, ScanUpTo(s, start, p).cursor, End, batch), Min(p + batch, |s|);
            page == s[p..q] && ScanStep(ScanUpTo(s, start, p), page) == ScanUpTo(s, start, q)
  {
    StillPage(s, start, p, batch);
    hide Sorted, Skip, XRange, Resume;
    var p0, q := Skip(s, start), Min(p + batch, |s|);
    JoinSlices(s, p0, p, q);
    ResumeTwice(start, s[p0..p], s[p..q]);
  }

  lemma ResumeTwice(start: Lower, a: seq<Entry>, b: seq<Entry>)
    ensures Resume(Resume(start, a), b) == Resume(start, a + b)
  {
    assert b == [] ==> a + b == a;
  }

  /** A scan that has returned the next entries from its start, and nothing else. */
  ghost predicate Contiguous(s: seq<Entry>, start: Lower, scan: Scan) {
    Skip(s, start) + |scan.pulled| <= |s| && scan == ScanUpTo(s, start, Skip(s, start) + |scan.pulled|)
  }

  lemma {:induction false} ContiguousStep(s: seq<Entry>, start: Lower, scan: Scan, batch: nat)
    requires Sorted(s) && Contiguous(s, start, scan)
    ensures Contiguous(s, start, ScanStep(scan, XRange(s, scan.cursor, End, batch)))
    ensures var p := Skip(s, start) + |scan.pulled|;
            XRange(s, scan.cursor, End, batch) == s[p..Min(p + batch, |s|)]
  {
    hide Sorted, Skip, XRange, Resume;
    ScanUpToStep(s, start, Skip(s, start) + |scan.pulled|, batch);
  }

  /** On a stream nobody touches, the round trips return one contiguous slice. */
  lemma {:induction false} ScanWhenStill(history: seq<Entry>, views: Views, start: Lower, batch: nat, n: nat)
    requires Sorted(history) && Still(views)
    ensures Contiguous(Held(history, views(0)), start, ScanAfter(history, views, start, batch, n))
  {
    if n == 0 {
      var s := Held(history, views(0));
      assert s[Skip(s, start)..Skip(s, start)] == [];
    } else {
      ScanWhenStill(history, views, start, batch, n - 1);
      assert views(n - 1) == views(0);
      ContentSorted(history, views(0));
      hide Still, Sorted, Contiguous, XRange;
      ContiguousStep(Held(history, views(0)), start, ScanAfter(history, views, start, batch, n - 1), batch);
    }
  }

  /** Resuming behind a slice returns the entries right after it. */
  lemma {:induction false} StillPage(s: seq<Entry>, start: Lower, p: nat, batch: nat)
    requires Sorted(s) && Skip(s, start) <= p <= |s|
    ensures XRange(s, Resume(start, s[Skip(s, start)..p]), End, batch) == s[p..Min(p + batch, |s|)]
  {
    if Skip(s, start) < p {
      ResumeSkips(s, Skip(s, start), p, start);
    } else {
      assert s[Skip(s, start)..p] == [];
    }
    ReachIs(s, End, |s|);
    XRangeSlice(s, Resume(start, s[Skip(s, start)..p]), End, batch);
  }

  // ----------------------------------------------------------------- backwards

  /** A scan from the newest entries down: where the next round trip ends, and what came back so far. */
  datatype BackScan = BackScan(cursor: Upper, pulled: seq<Entry>)

  function BackResume(cursor: Upper, page: seq<Entry>): Upper {
    if page == [] then cursor else Before(page[|page| - 1].id)
  }

  function BackPage(history: seq<Entry>, w: Window, cursor: Upper, end: Lower, batch: nat): seq<Entry> {
    XRevRange(Held(history, w), cursor, end, batch)
  }

  function BackStep(scan: BackScan, page: seq<Entry>): BackScan {
    BackScan(BackResume(scan.cursor, page), scan.pulled + page)
  }

  function BackAfter(history: seq<Entry>, views: Views, from: Upper, end: Lower, batch: nat, n: nat): BackScan {
    if n == 0 then BackScan(from, [])
    else
      var scan := BackAfter(history, views, from, end, batch, n - 1);
      BackStep(scan, BackPage(history, views(n - 1), scan.cursor, end, batch))
  }

  /** The position a backward scan starts from: what comes later is not seen. */
  function Top(history: seq<Entry>, views: Views, from: Upper): nat {
    Min(Reach(history, from), views(0).hi)
  }

  /** The position below which nothing is left: before the range, or trimmed. */
  function Floor(history: seq<Entry>, w: Window, end: Lower): nat {
    Max(Skip(history, end), w.lo)
  }

  lemma {:induction false} ContentReach(history: seq<Entry>, w: Window, cursor: Upper)
    requires Sorted(history) && w.Within(history)
    ensures Reach(Held(history, w), cursor) == Max(Min(Reach(history, cursor), w.hi), w.lo) - w.lo
  {
    ContentSorted(history, w);
    ReachCuts(history, cursor);
    hide Sorted, Below;
    var r := Max(Min(Reach(history, cursor), w.hi), w.lo) - w.lo;
    assert forall i | 0 <= i < w.hi - w.lo :: Held(history, w)[i] == history[w.lo + i];
    ReachIs(Held(history, w), cursor, r);
  }

  /** A backward page is the newest slice below the cursor, down to the floor, turned around. */
  lemma {:induction false} BackPageIsSlice(history: seq<Entry>, w: Window, cursor: Upper, end: Lower, batch: nat)
    requires Sorted(history) && w.Within(history)
    ensures var p, r := Floor(history, w, end), Min(Reach(history, cursor), w.hi);
            BackPage(history, w, cursor, end, batch)
            == if p < r then Reverse(history[Max(p, r - batch)..r]) else []
  {
    hide XRevRange, Skip, Sorted, Reach, Reverse;
    ContentSorted(history, w);
    ContentCuts(history, w, end);
    ContentReach(history, w, cursor);
    XRevRangeSlice(Held(history, w), cursor, end, batch);
    var p, r := Floor(history, w, end), Min(Reach(history, cursor), w.hi);
    if p < r {
      SliceOfSlice(history, w.lo, w.hi, Max(p, r - batch) - w.lo, r - w.lo);
    } else {
      NothingReversed<Entry>();
      assert Held(history, w)[Reach(Held(history, w), cursor)..Reach(Held(history, w), cursor)] == [];
    }
  }

  lemma NothingReversed<T>()
    ensures Reverse<T>([]) == []
  {
  }

  /** One backward round trip: nothing, or the next slice down. */
  lemma {:induction false} BackTrip(history: seq<Entry>, w: Window, cursor: Upper, end: Lower, batch: nat)
    requires Sorted(history) && w.Within(history) && batch > 0
    ensures var p, r := Floor(history, w, end), Min(Reach(history, cursor), w.hi);
            var page := BackPage(history, w, cursor, end, batch);
            && (page == [] <==> r <= p)
            && (page != [] ==>
                  && p <= r - |page| && page == Reverse(history[r - |page|..r])
                  && Reach(history, BackResume(cursor, page)) == r - |page|
                  && (|page| < batch ==> r - |page| == p))
  {
    hide BackPage, Skip, Sorted, Reach, Reverse;
    BackPageIsSlice(history, w, cursor, end, batch);
    var p, r := Floor(history, w, end), Min(Reach(history, cursor), w.hi);
    if p < r {
      var q := Max(p, r - batch);
      ReverseAt(history[q..r], r - q - 1);
      ReachAt(history, q);
    }
  }

  /** A backward scan that has returned the positions [r, top), newest first, and goes on below r. */
  ghost predicate Downward(history: seq<Entry>, from: Upper, top: nat, r: nat, scan: BackScan) {
    && r <= top <= |history| && scan.pulled == Reverse(history[r..top])
    && if r == top then scan.cursor == from else Reach(history, scan.cursor) == r
  }

  lemma {:induction false} DownwardStep(history: seq<Entry>, w: Window, from: Upper, top: nat, r: nat, scan: BackScan,
                                        end: Lower, batch: nat)
    requires Sorted(history) && w.Within(history) && batch > 0 && top <= w.hi
    requires Downward(history, from, top, r, scan) && (r == top ==> top == Min(Reach(history, from), w.hi))
    ensures var page, p := BackPage(history, w, scan.cursor, end, batch), Floor(history, w, end);
            && |page| <= r && Downward(history, from, top, r - |page|, BackStep(scan, page))
            && (page == [] <==> r <= p) && (page != [] ==> p <= r - |page|)
            && (|page| < batch ==> r - |page| <= p)
  {
    hide BackPage, Skip, Sorted, Reach, Reverse;
    BackTrip(history, w, scan.cursor, end, batch);
    var page := BackPage(history, w, scan.cursor, end, batch);
    if page != [] {
      var q := r - |page|;
      JoinSlices(history, q, r, top);
      ReverseJoin(history[q..r], history[r..top]);
    } else {
      assert scan.pulled + page == scan.pulled;
    }
  }

  /**
    While other processes append and trim, a backward scan returns one contiguous slice,
    newest first: only its first round trip can see a moving end.
   */
  lemma {:induction false} BackScanIsSlice(history: seq<Entry>, views: Views, from: Upper, end: Lower, batch: nat, n: nat)
    returns (r: nat)
    requires Sorted(history) && Moving(history, views) && batch > 0
    requires n > 1 ==> BackAfter(history, views, from, end, batch, 1).pulled != []
    ensures Downward(history, from, Top(history, views, from), r, BackAfter(history, views, from, end, batch, n))
    ensures r < Top(history, views, from) ==> Floor(history, views(0), end) <= r
    ensures n > 0 && BackAfter(history, views, from, end, batch, 1).pulled != [] ==> r < Top(history, views, from)
  {
    hide Sorted, Skip, Reach, Reverse, BackPage;
    var top := Top(history, views, from);
    if n == 0 {
      r := top;
      NothingReversed<Entry>();
      assert history[top..top] == [];
    } else {
      var above := BackScanIsSlice(history, views, from, end, batch, n - 1);
      var scan := BackAfter(history, views, from, end, batch, n - 1);
      DownwardStep(history, views(n - 1), from, top, above, scan, end, batch);
      r := above - |BackPage(history, views(n - 1), scan.cursor, end, batch)|;
    }
  }
}
