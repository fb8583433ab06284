/** Broker records as readers see them: decoding, filters, and gathering one page. */
module Records {
  import opened Wrappers
  import opened StreamLog

  /** What a body decodes to. */
  datatype Content = Content(name: Option<string>, key: Option<string>, payload: Body)

  datatype Record = Record(cursor: StreamId, content: Content)

  /** JSON decoding, which may fail. */
  type Decoder = Body -> Option<Content>

  /** The caller's name and key filters; an empty list is no filter. */
  datatype Filters = Filters(names: seq<string>, keys: seq<string>)

  /** Whether a text passes a filter. An empty text passes only the absent filter. */
  predicate Passes(filter: seq<string>, text: Option<string>) {
    filter == [] || (text.Some? && text.value != "" && text.value in filter)
  }

  /** A filter asks for texts: an absent or empty one passes only without a filter, even if the filter names it. */
  lemma PassesExactly(filter: seq<string>, text: Option<string>)
    ensures Passes(filter, text) <==> filter == [] || exists i :: 0 <= i < |filter| && filter[i] != "" && text == Some(filter[i])
  {
  }

  predicate MatchesFilters(content: Content, filters: Filters) {
    Passes(filters.names, content.name) && Passes(filters.keys, content.key)
  }

  /** The records of a list of entries that decode and pass the filters, in order. */
  function Matches(s: seq<Entry>, decode: Decoder, filters: Filters): seq<Record> {
    if s == [] then []
    else Matches(s[..|s| - 1], decode, filters) + MatchOf(s[|s| - 1], decode, filters)
  }

  function MatchOf(e: Entry, decode: Decoder, filters: Filters): (m: seq<Record>)
    ensures |m| <= 1
  {
    var content := decode(e.body);
    if content.Some? && MatchesFilters(content.value, filters) then [Record(e.id, content.value)] else []
  }

  predicate Decodable(s: seq<Entry>, decode: Decoder) {
    forall e | e in s :: decode(e.body).Some?
  }

  /** How far a reader is with the entries it has seen. */
  datatype Progress =
    | Going(records: seq<Record>)
    | Reached(records: seq<Record>)
    | Failed

  predicate Enough(records: seq<Record>, target: Option<nat>) {
    target.Some? && |records| >= target.value
  }

  /** One entry through the loop body of `read` and `tail`. */
  function GatherOne(records: seq<Record>, e: Entry, decode: Decoder, filters: Filters, target: Option<nat>): Progress {
    if decode(e.body).None? then Failed
    else
      var found := MatchOf(e, decode, filters);
      if found != [] && Enough(records + found, target) then Reached(records + found) else Going(records + found)
  }

  /** All of the entries seen so far; once the target is met or a body fails, nothing more is read. */
  function Gather(s: seq<Entry>, decode: Decoder, filters: Filters, target: Option<nat>): Progress {
    if s == [] then Going([])
    else
      var before := Gather(s[..|s| - 1], decode, filters, target);
      if before.Going? then GatherOne(before.records, s[|s| - 1], decode, filters, target) else before
  }

  lemma {:induction false} MatchesSplit(s: seq<Entry>, t: seq<Entry>, decode: Decoder, filters: Filters)
    ensures Matches(s + t, decode, filters) == Matches(s, decode, filters) + Matches(t, decode, filters)
  {
    if t == [] {
      assert s + t == s;
    } else {
      var n := |t| - 1;
      assert (s + t)[..|s + t| - 1] == s + t[..n];
      MatchesSplit(s, t[..n], decode, filters);
    }
  }

  /** Gathering stops for good: more entries change nothing after a stop. */
  lemma {:induction false} GatherStops(s: seq<Entry>, t: seq<Entry>, decode: Decoder, filters: Filters,
                                       target: Option<nat>)
    requires !Gather(s, decode, filters, target).Going?
    ensures Gather(s + t, decode, filters, target) == Gather(s, decode, filters, target)
  {
    if t == [] {
      assert s + t == s;
    } else {
      var n := |t| - 1;
      assert (s + t)[..|s + t| - 1] == s + t[..n];
      GatherStops(s, t[..n], decode, filters, target);
    }
  }

  /**
    On entries that all decode, gathering yields all matches, or exactly the first
    `target` of them when there are that many.
   */
  lemma {:induction false} GatherIsMatches(s: seq<Entry>, decode: Decoder, filters: Filters, target: Option<nat>)
    requires Decodable(s, decode) && (target.Some? ==> target.value > 0)
    ensures var all := Matches(s, decode, filters);
            Gather(s, decode, filters, target) ==
              if Enough(all, target) then Reached(all[..target.value]) else Going(all)
  {
    if s != [] {
      GatherIsMatches(s[..|s| - 1], decode, filters, target);
    }
  }

  /** A body that does not decode fails the page unless the target was met before it. */
  lemma {:induction false} GatherFails(s: seq<Entry>, k: nat, decode: Decoder, filters: Filters, target: Option<nat>)
    requires k < |s| && Decodable(s[..k], decode) && decode(s[k].body).None?
    requires target.Some? ==> target.value > 0
    ensures Gather(s, decode, filters, target) ==
              if Enough(Matches(s[..k], decode, filters), target)
              then Reached(Matches(s[..k], decode, filters)[..target.value]) else Failed
  {
    GatherIsMatches(s[..k], decode, filters, target);
    assert s[..k + 1][..k] == s[..k];
    assert s == s[..k + 1] + s[k + 1..];
    GatherStops(s[..k + 1], s[k + 1..], decode, filters, target);
  }

  lemma {:induction false} MatchesBelow(s: seq<Entry>, bound: StreamId, decode: Decoder, filters: Filters)
    requires forall i | 0 <= i < |s| :: Less(s[i].id, bound)
    ensures forall i | 0 <= i < |Matches(s, decode, filters)| :: Less(Matches(s, decode, filters)[i].cursor, bound)
  {
    if s != [] {
      MatchesBelow(s[..|s| - 1], bound, decode, filters);
    }
  }

  /** Matches come in the order of the entries, without duplicates. */
  lemma {:induction false} MatchesIncrease(s: seq<Entry>, decode: Decoder, filters: Filters)
    requires Sorted(s)
    ensures forall i, j | 0 <= i < j < |Matches(s, decode, filters)| ::
              Less(Matches(s, decode, filters)[i].cursor, Matches(s, decode, filters)[j].cursor)
  {
    if s != [] {
      var n := |s| - 1;
      var before, last := Matches(s[..n], decode, filters), MatchOf(s[n], decode, filters);
      MatchesIncrease(s[..n], decode, filters);
      MatchesBelow(s[..n], s[n].id, decode, filters);
      var all := before + last;
      forall i, j | 0 <= i < j < |all| ensures Less(all[i].cursor, all[j].cursor) {
        if j == |before| { assert all[j] == last[0]; }
      }
    }
  }

  /** The entry behind the i-th match. */
  lemma {:induction false} MatchAt(s: seq<Entry>, i: nat, decode: Decoder, filters: Filters) returns (k: nat)
    requires i < |Matches(s, decode, filters)|
    ensures k < |s| && |Matches(s[..k], decode, filters)| == i
    ensures MatchOf(s[k], decode, filters) == [Matches(s, decode, filters)[i]]
    ensures Matches(s, decode, filters)[i].cursor == s[k].id
  {
    var n := |s| - 1;
    if i < |Matches(s[..n], decode, filters)| {
      k := MatchAt(s[..n], i, decode, filters);
      assert s[..n][..k] == s[..k];
    } else {
      k := n;
    }
  }

  /** The matches around one entry. */
  lemma {:induction false} MatchesAround(s: seq<Entry>, k: nat, decode: Decoder, filters: Filters)
    requires k < |s|
    ensures Matches(s, decode, filters)
         == Matches(s[..k], decode, filters) + MatchOf(s[k], decode, filters) + Matches(s[k + 1..], decode, filters)
  {
    hide MatchOf;
    var upTo := s[..k + 1];
    assert Matches(upTo, decode, filters) == Matches(s[..k], decode, filters) + MatchOf(s[k], decode, filters) by {
      assert upTo[..|upTo| - 1] == s[..k] && upTo[|upTo| - 1] == s[k];
    }
    assert s == upTo + s[k + 1..];
    hide Matches;
    MatchesSplit(upTo, s[k + 1..], decode, filters);
  }

  lemma {:induction false} MatchesHold(s: seq<Entry>, e: Entry, decode: Decoder, filters: Filters)
    requires e in s
    ensures forall r | r in MatchOf(e, decode, filters) :: r in Matches(s, decode, filters)
  {
    if s[|s| - 1] != e {
      MatchesHold(s[..|s| - 1], e, decode, filters);
    }
  }
}
