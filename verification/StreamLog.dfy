/**
  The physical Redis Stream: entries under (milliseconds, sequence) ids, the commands
  the broker's scripts use on it, and what those commands mean on a sorted stream.
 */
module StreamLog {
  import opened Wrappers

  type Body = seq<byte>

  datatype StreamId = StreamId(ms: nat, sequence: nat)

  datatype Entry = Entry(id: StreamId, body: Body)

  predicate Less(a: StreamId, b: StreamId) {
    a.ms < b.ms || (a.ms == b.ms && a.sequence < b.sequence)
  }

  predicate AtMost(a: StreamId, b: StreamId) {
    a == b || Less(a, b)
  }

  /** The three-way comparison the broker runs on cursors. */
  function CompareStreamIds(left: StreamId, right: StreamId): int {
    if left.ms < right.ms then -1
    else if left.ms > right.ms then 1
    else if left.sequence < right.sequence then -1
    else if left.sequence > right.sequence then 1
    else 0
  }

  predicate Sorted(s: seq<Entry>) {
    forall i, j | 0 <= i < j < |s| :: Less(s[i].id, s[j].id)
  }

  function Bytes(s: seq<Entry>): nat {
    if s == [] then 0 else |s[0].body| + Bytes(s[1..])
  }

  // ---------------------------------------------------------------- commands

  /** The start of a range: "-", "(id" for everything after an id, or an id itself. */
  datatype Lower = Start | After(id: StreamId) | From(id: StreamId)

  /** The end of a range: "+", "(id" for everything before an id, or an id itself. */
  datatype Upper = End | Before(id: StreamId) | UpTo(id: StreamId)

  predicate Above(id: StreamId, lo: Lower) {
    match lo
    case Start => true
    case After(b) => Less(b, id)
    case From(b) => AtMost(b, id)
  }

  predicate Below(id: StreamId, hi: Upper) {
    match hi
    case End => true
    case Before(b) => Less(id, b)
    case UpTo(b) => AtMost(id, b)
  }

  /** XRANGE lo hi COUNT count. */
  function XRange(s: seq<Entry>, lo: Lower, hi: Upper, count: nat): seq<Entry> {
    XRangeFrom(s, 0, lo, hi, count)
  }

  function XRangeFrom(s: seq<Entry>, i: nat, lo: Lower, hi: Upper, count: nat): seq<Entry>
    requires i <= |s|
    decreases |s| - i
  {
    if i == |s| || count == 0 then []
    else if Above(s[i].id, lo) && Below(s[i].id, hi) then [s[i]] + XRangeFrom(s, i + 1, lo, hi, count - 1)
    else XRangeFrom(s, i + 1, lo, hi, count)
  }

  /** XREVRANGE hi lo COUNT count: newest first. */
  function XRevRange(s: seq<Entry>, hi: Upper, lo: Lower, count: nat): seq<Entry> {
    XRevRangeFrom(s, |s|, hi, lo, count)
  }

  function XRevRangeFrom(s: seq<Entry>, i: nat, hi: Upper, lo: Lower, count: nat): seq<Entry>
    requires i <= |s|
  {
    if i == 0 || count == 0 then []
    else if Above(s[i - 1].id, lo) && Below(s[i - 1].id, hi) then [s[i - 1]] + XRevRangeFrom(s, i - 1, hi, lo, count - 1)
    else XRevRangeFrom(s, i - 1, hi, lo, count)
  }

  /** XTRIM MAXLEN = n keeps the newest n entries. */
  function XTrimMaxLen(s: seq<Entry>, n: nat): seq<Entry> {
    if |s| <= n then s else s[|s| - n..]
  }

  /** XTRIM MINID = id drops entries from the head while they are older than id. */
  function XTrimMinId(s: seq<Entry>, id: StreamId): seq<Entry> {
    if s != [] && Less(s[0].id, id) then XTrimMinId(s[1..], id) else s
  }

  /** XDEL with a list of ids. */
  function XDel(s: seq<Entry>, ids: seq<StreamId>): seq<Entry> {
    if s == [] then []
    else if s[0].id in ids then XDel(s[1..], ids)
    else [s[0]] + XDel(s[1..], ids)
  }

  // -------------------------------------------------- positions in a sorted stream

  /** The range start that continues after the first p entries. */
  function LowerAt(s: seq<Entry>, p: nat): Lower
    requires p <= |s|
  {
    if p == 0 then Start else After(s[p - 1].id)
  }

  /** How many leading entries a range start passes over. */
  function Skip(s: seq<Entry>, lo: Lower): (p: nat)
    ensures p <= |s|
  {
    if s != [] && !Above(s[0].id, lo) then 1 + Skip(s[1..], lo) else 0
  }

  /** The position a range end reaches. */
  function Reach(s: seq<Entry>, hi: Upper): (r: nat)
    ensures r <= |s|
  {
    if s != [] && Below(s[0].id, hi) then 1 + Reach(s[1..], hi) else 0
  }

  /** In a sorted stream a range start and a range end each cut at one position. */
  lemma {:induction false} SkipCuts(s: seq<Entry>, lo: Lower)
    requires Sorted(s)
    ensures forall i | 0 <= i < |s| :: Above(s[i].id, lo) <==> Skip(s, lo) <= i
  {
    if s != [] && !Above(s[0].id, lo) {
      SkipCuts(s[1..], lo);
      forall i | 0 <= i < |s| ensures Above(s[i].id, lo) <==> Skip(s, lo) <= i {
        if i > 0 { assert s[i] == s[1..][i - 1]; }
      }
    } else {
      forall i | 0 <= i < |s| ensures Above(s[i].id, lo) {
        if i > 0 { assert Less(s[0].id, s[i].id); }
      }
    }
  }

  lemma {:induction false} ReachCuts(s: seq<Entry>, hi: Upper)
    requires Sorted(s)
    ensures forall i | 0 <= i < |s| :: Below(s[i].id, hi) <==> i < Reach(s, hi)
  {
    if s != [] && Below(s[0].id, hi) {
      ReachCuts(s[1..], hi);
      forall i | 0 <= i < |s| ensures Below(s[i].id, hi) <==> i < Reach(s, hi) {
        if i > 0 { assert s[i] == s[1..][i - 1]; }
      }
    } else {
      forall i | 0 <= i < |s| ensures !Below(s[i].id, hi) {
        if i > 0 { assert Less(s[0].id, s[i].id); }
      }
    }
  }

  /** A position is where a range start cuts when the entries around it say so. */
  lemma {:induction false} SkipIs(s: seq<Entry>, lo: Lower, p: nat)
    requires Sorted(s) && p <= |s|
    requires p > 0 ==> !Above(s[p - 1].id, lo)
    requires p < |s| ==> Above(s[p].id, lo)
    ensures Skip(s, lo) == p
  {
    SkipCuts(s, lo);
  }

  lemma {:induction false} ReachIs(s: seq<Entry>, hi: Upper, r: nat)
    requires Sorted(s) && r <= |s|
    requires r > 0 ==> Below(s[r - 1].id, hi)
    requires r < |s| ==> !Below(s[r].id, hi)
    ensures Reach(s, hi) == r
  {
    ReachCuts(s, hi);
  }

  lemma {:induction false} ReachAt(s: seq<Entry>, q: nat)
    requires Sorted(s) && q < |s|
    ensures Reach(s, Before(s[q].id)) == q
  {
    if q > 0 { assert Less(s[q - 1].id, s[q].id); }
    ReachIs(s, Before(s[q].id), q);
  }

  lemma {:induction false} SkipAt(s: seq<Entry>, p: nat)
    requires Sorted(s) && p <= |s|
    ensures Skip(s, LowerAt(s, p)) == p
  {
    if 0 < p < |s| { assert Less(s[p - 1].id, s[p].id); }
    SkipIs(s, LowerAt(s, p), p);
  }

  lemma {:induction false} BytesSplit(s: seq<Entry>, t: seq<Entry>)
    ensures Bytes(s + t) == Bytes(s) + Bytes(t)
  {
    if s == [] {
      assert s + t == t;
    } else {
      assert (s + t)[1..] == s[1..] + t;
      BytesSplit(s[1..], t);
    }
  }

  lemma BytesDrop(s: seq<Entry>, p: nat)
    requires p < |s|
    ensures Bytes(s[p..]) == |s[p].body| + Bytes(s[p + 1..])
  {
    assert s[p..][1..] == s[p + 1..];
  }

  /** On a sorted stream a range is the slice between its two cuts, at most count long. */
  lemma {:induction false} XRangeSlice(s: seq<Entry>, lo: Lower, hi: Upper, count: nat)
    requires Sorted(s)
    ensures var p, r := Skip(s, lo), Reach(s, hi);
            XRange(s, lo, hi, count) == if p <= r then s[p..Min(p + count, r)] else []
  {
    SkipCuts(s, lo);
    ReachCuts(s, hi);
    XRangeSkips(s, 0, Skip(s, lo), lo, hi, count);
    if Skip(s, lo) <= Reach(s, hi) {
      XRangeTakes(s, Skip(s, lo), lo, hi, count);
    } else {
      XRangeStops(s, Skip(s, lo), lo, hi, count);
    }
  }

  lemma {:induction false} XRangeSkips(s: seq<Entry>, i: nat, p: nat, lo: Lower, hi: Upper, count: nat)
    requires i <= p <= |s|
    requires forall j | 0 <= j < p :: !Above(s[j].id, lo)
    ensures XRangeFrom(s, i, lo, hi, count) == XRangeFrom(s, p, lo, hi, count)
    decreases p - i
  {
    if i < p {
      XRangeSkips(s, i + 1, p, lo, hi, count);
    }
  }

  lemma {:induction false} XRangeTakes(s: seq<Entry>, i: nat, lo: Lower, hi: Upper, count: nat)
    requires i <= Reach(s, hi)
    requires forall j | i <= j < Reach(s, hi) :: Above(s[j].id, lo) && Below(s[j].id, hi)
    requires forall j | Reach(s, hi) <= j < |s| :: !Below(s[j].id, hi)
    ensures XRangeFrom(s, i, lo, hi, count) == s[i..Min(i + count, Reach(s, hi))]
    decreases |s| - i
  {
    hide Above, Below, Reach;
    var r := Reach(s, hi);
    if i == r {
      XRangeStops(s, i, lo, hi, count);
    } else if count > 0 {
      XRangeTakes(s, i + 1, lo, hi, count - 1);
      var m := Min(i + count, r);
      assert [s[i]] + s[i + 1..m] == s[i..m];
    }
  }

  lemma {:induction false} XRangeStops(s: seq<Entry>, i: nat, lo: Lower, hi: Upper, count: nat)
    requires i <= |s|
    requires forall j | i <= j < |s| :: !Below(s[j].id, hi)
    ensures XRangeFrom(s, i, lo, hi, count) == []
    decreases |s| - i
  {
    if i < |s| {
      XRangeStops(s, i + 1, lo, hi, count);
    }
  }

  lemma {:induction false} XTrimMinIdDrops(s: seq<Entry>, id: StreamId)
    ensures XTrimMinId(s, id) == s[Reach(s, Before(id))..]
  {
    if s != [] && Less(s[0].id, id) {
      XTrimMinIdDrops(s[1..], id);
    }
  }

  lemma {:induction false} XDelNone(s: seq<Entry>, ids: seq<StreamId>)
    requires forall i | 0 <= i < |s| :: s[i].id !in ids
    ensures XDel(s, ids) == s
  {
    if s != [] {
      XDelNone(s[1..], ids);
    }
  }

  /** Deleting the ids of the first k entries drops exactly those k entries. */
  lemma {:induction false} XDelPrefix(s: seq<Entry>, k: nat, ids: seq<StreamId>)
    requires Sorted(s) && k <= |s|
    requires forall i | 0 <= i < |s| :: s[i].id in ids <==> i < k
    ensures XDel(s, ids) == s[k..]
    decreases |s|
  {
    if k == 0 {
      XDelNone(s, ids);
    } else {
      assert s[1..][k - 1..] == s[k..];
      XDelPrefix(s[1..], k - 1, ids);
    }
  }

  lemma {:induction false} XRevRangeStops(s: seq<Entry>, i: nat, hi: Upper, lo: Lower, count: nat)
    requires i <= |s|
    requires forall j | 0 <= j < i :: !Above(s[j].id, lo)
    ensures XRevRangeFrom(s, i, hi, lo, count) == []
  {
    if i > 0 {
      XRevRangeStops(s, i - 1, hi, lo, count);
    }
  }

  lemma {:induction false} ReverseSlice(s: seq<Entry>, q: nat, i: nat)
    requires q < i <= |s|
    ensures Reverse(s[q..i]) == [s[i - 1]] + Reverse(s[q..i - 1])
  {
    SliceOfSlice(s, q, i, 0, i - 1 - q);
  }

  lemma {:induction false} XRevRangeTakes(s: seq<Entry>, i: nat, p: nat, hi: Upper, lo: Lower, count: nat)
    requires p <= i <= |s|
    requires forall j | 0 <= j < p :: !Above(s[j].id, lo)
    requires forall j | p <= j < i :: Above(s[j].id, lo) && Below(s[j].id, hi)
    ensures XRevRangeFrom(s, i, hi, lo, count) == Reverse(s[Max(p, i - count)..i])
  {
    if i == p {
      XRevRangeStops(s, i, hi, lo, count);
    } else if count > 0 {
      hide Reverse, Above, Below;
      XRevRangeTakes(s, i - 1, p, hi, lo, count - 1);
      ReverseSlice(s, Max(p, i - count), i);
    } else {
      assert s[i..i] == [];
    }
  }

  lemma {:induction false} XRevRangeSkips(s: seq<Entry>, i: nat, r: nat, hi: Upper, lo: Lower, count: nat)
    requires r <= i <= |s|
    requires forall j | r <= j < |s| :: !Below(s[j].id, hi)
    ensures XRevRangeFrom(s, i, hi, lo, count) == XRevRangeFrom(s, r, hi, lo, count)
  {
    if i > r {
      XRevRangeSkips(s, i - 1, r, hi, lo, count);
    }
  }

  /** On a sorted stream a reverse range is the slice before its upper cut, newest first. */
  lemma {:induction false} XRevRangeSlice(s: seq<Entry>, hi: Upper, lo: Lower, count: nat)
    requires Sorted(s)
    ensures var p, r := Skip(s, lo), Reach(s, hi);
            XRevRange(s, hi, lo, count) == if p <= r then Reverse(s[Max(p, r - count)..r]) else []
  {
    hide Sorted, Skip, Reach, Above, Below, Reverse, XRevRangeFrom;
    SkipCuts(s, lo);
    ReachCuts(s, hi);
    var p, r := Skip(s, lo), Reach(s, hi);
    XRevRangeSkips(s, |s|, r, hi, lo, count);
    if p <= r {
      XRevRangeTakes(s, r, p, hi, lo, count);
    } else {
      XRevRangeStops(s, r, hi, lo, count);
    }
  }

  /** The body stored under an id; empty when the stream no longer holds it. */
  function BodyAt(s: seq<Entry>, id: StreamId): Body {
    if s == [] then []
    else if s[0].id == id then s[0].body
    else BodyAt(s[1..], id)
  }

  lemma {:induction false} XRangeExact(s: seq<Entry>, i: nat, id: StreamId)
    requires i <= |s|
    ensures var page := XRangeFrom(s, i, From(id), UpTo(id), 1);
            BodyAt(s[i..], id) == if page == [] then [] else page[0].body
    decreases |s| - i
  {
    if i < |s| {
      assert s[i..][1..] == s[i + 1..];
      XRangeExact(s, i + 1, id);
    }
  }

  lemma XRevRangeNewest(s: seq<Entry>)
    ensures XRevRange(s, End, Start, 1) == if s == [] then [] else [s[|s| - 1]]
  {
    if s != [] {
      assert XRevRangeFrom(s, |s| - 1, End, Start, 0) == [];
    }
  }

  lemma SuffixSorted(s: seq<Entry>, k: nat)
    requires Sorted(s) && k <= |s|
    ensures Sorted(s[k..])
  {
  }

  /** Dropping k entries moves a range end k positions back. */
  lemma {:induction false} ReachTail(s: seq<Entry>, k: nat, hi: Upper)
    requires Sorted(s) && k <= |s|
    ensures k + Reach(s[k..], hi) == Max(k, Reach(s, hi))
  {
    SuffixSorted(s, k);
    ReachCuts(s, hi);
    var r := Max(k, Reach(s, hi)) - k;
    assert r > 0 ==> s[k..][r - 1] == s[k + r - 1];
    assert k + r < |s| ==> s[k..][r] == s[k + r];
    ReachIs(s[k..], hi, r);
  }
}
