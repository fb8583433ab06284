/** A JetStream stream: numbered messages under subjects, and what a filtered range of it holds. */
module NatsLog {
  import opened Wrappers
  import opened StreamLog
  import opened Records

  datatype Message = Message(sequence: nat, name: Option<string>, key: Option<string>, data: Body)

  /** The retained messages, and the last sequence number the stream has given out. */
  datatype Stream = Stream(messages: seq<Message>, lastSequence: nat) {
    ghost predicate Valid() {
      Numbered(messages) && forall m | m in messages :: m.sequence <= lastSequence
    }

    /** The first number a reader can still get. */
    function FirstAvailable(): nat {
      if |messages| > 0 then messages[0].sequence else lastSequence + 1
    }
  }

  ghost predicate Numbered(messages: seq<Message>) {
    forall i, j | 0 <= i < j < |messages| :: messages[i].sequence < messages[j].sequence
  }

  // ------------------------------------------------------------------- subjects

  /** What stands in the subject for a record without a name or without a key. */
  const PLACEHOLDER := "_"

  function Token(text: Option<string>): string {
    if text.Some? then text.value else PLACEHOLDER
  }

  /** A subject filter is a list of tokens, or a wildcard when the caller gave none. */
  predicate TokenPasses(filter: seq<string>, text: Option<string>) {
    filter == [] || Token(text) in filter
  }

  predicate SubjectPasses(m: Message, filters: Filters) {
    TokenPasses(filters.names, m.name) && TokenPasses(filters.keys, m.key)
  }

  /** A subject filter lets through the texts the caller asked for, for every text a subject can carry, exactly when
      the caller did not ask for the placeholder. */
  lemma TokensFilterTexts(filter: seq<string>)
    ensures (forall text: Option<string> | text != Some("") :: TokenPasses(filter, text) <==> Passes(filter, text))
            <==> "_" !in filter
    ensures forall text: Option<string> | text.Some? :: TokenPasses(filter, text) <==> filter == [] || text.value in filter
  {
    if PLACEHOLDER in filter {
      assert TokenPasses(filter, None) && !Passes(filter, None);
    }
  }

  lemma SubjectsFilterRecords(m: Message, filters: Filters)
    requires "_" !in filters.names && "_" !in filters.keys && m.name != Some("") && m.key != Some("")
    ensures SubjectPasses(m, filters) <==> MatchesFilters(Content(m.name, m.key, m.data), filters)
  {
    TokensFilterTexts(filters.names);
    TokensFilterTexts(filters.keys);
  }

  // ----------------------------------------------------------------- a range

  predicate Inside(m: Message, lo: nat, hi: nat, filters: Filters) {
    lo <= m.sequence < hi && SubjectPasses(m, filters)
  }

  /** The messages with numbers in [lo, hi) that pass the filters, in order. */
  function Filtered(messages: seq<Message>, lo: nat, hi: nat, filters: Filters): (found: seq<Message>)
    ensures |found| <= |messages|
  {
    if messages == [] then []
    else
      var n := |messages| - 1;
      Filtered(messages[..n], lo, hi, filters) + if Inside(messages[n], lo, hi, filters) then [messages[n]] else []
  }

  lemma {:induction false} FilteredHolds(messages: seq<Message>, lo: nat, hi: nat, filters: Filters)
    ensures forall m :: m in Filtered(messages, lo, hi, filters) <==> m in messages && Inside(m, lo, hi, filters)
  {
    hide Inside;
    if messages != [] {
      FilteredHolds(messages[..|messages| - 1], lo, hi, filters);
    }
  }

  lemma {:induction false} FilteredNumbered(messages: seq<Message>, lo: nat, hi: nat, filters: Filters)
    requires Numbered(messages)
    ensures Numbered(Filtered(messages, lo, hi, filters))
  {
    if messages != [] {
      var n := |messages| - 1;
      FilteredNumbered(messages[..n], lo, hi, filters);
      FilteredHolds(messages[..n], lo, hi, filters);
      assert forall m | m in Filtered(messages[..n], lo, hi, filters) :: m.sequence < messages[n].sequence;
    }
  }

  lemma {:induction false} NothingInside(messages: seq<Message>, lo: nat, hi: nat, filters: Filters)
    requires forall m | m in messages :: !Inside(m, lo, hi, filters)
    ensures Filtered(messages, lo, hi, filters) == []
  {
    hide Inside;
    if messages != [] {
      NothingInside(messages[..|messages| - 1], lo, hi, filters);
    }
  }

  /** A range falls into two at any number. */
  lemma {:induction false} RangeSplits(messages: seq<Message>, lo: nat, mid: nat, hi: nat, filters: Filters)
    requires Numbered(messages) && lo <= mid <= hi
    ensures Filtered(messages, lo, hi, filters)
         == Filtered(messages, lo, mid, filters) + Filtered(messages, mid, hi, filters)
  {
    hide SubjectPasses;
    if messages != [] {
      var n := |messages| - 1;
      RangeSplits(messages[..n], lo, mid, hi, filters);
      if messages[n].sequence < mid {
        NothingInside(messages, mid, hi, filters);
      }
    }
  }

  lemma {:induction false} MatchesBefore(messages: seq<Message>, lo: nat, hi: nat, filters: Filters, i: nat)
    requires Numbered(messages) && i < |Filtered(messages, lo, hi, filters)|
    ensures var found := Filtered(messages, lo, hi, filters);
            lo <= found[i].sequence < hi && Filtered(messages, lo, found[i].sequence, filters) == found[..i]
  {
    hide Filtered, SubjectPasses;
    var found := Filtered(messages, lo, hi, filters);
    assert found[i] in found;
    FilteredHolds(messages, lo, hi, filters);
    var at := found[i].sequence;
    FilteredNumbered(messages, lo, hi, filters);
    RangeSplits(messages, lo, at, hi, filters);
    FilteredHolds(messages, lo, at, filters);
    FilteredHolds(messages, at, hi, filters);
    SplitAt(found, Filtered(messages, lo, at, filters), Filtered(messages, at, hi, filters), at, i);
  }

  lemma MatchesAfter(messages: seq<Message>, lo: nat, hi: nat, filters: Filters, i: nat)
    requires Numbered(messages) && i < |Filtered(messages, lo, hi, filters)|
    ensures var found := Filtered(messages, lo, hi, filters);
            lo <= found[i].sequence < hi && Filtered(messages, found[i].sequence + 1, hi, filters) == found[i + 1..]
  {
    hide Filtered, SubjectPasses;
    var found := Filtered(messages, lo, hi, filters);
    assert found[i] in found;
    FilteredHolds(messages, lo, hi, filters);
    var at := found[i].sequence;
    FilteredNumbered(messages, lo, hi, filters);
    RangeSplits(messages, lo, at + 1, hi, filters);
    FilteredHolds(messages, lo, at + 1, filters);
    FilteredHolds(messages, at + 1, hi, filters);
    SplitAfter(found, Filtered(messages, lo, at + 1, filters), Filtered(messages, at + 1, hi, filters), at, i);
  }

  lemma MatchesThrough(messages: seq<Message>, lo: nat, hi: nat, filters: Filters, i: nat)
    requires Numbered(messages) && i < |Filtered(messages, lo, hi, filters)|
    ensures var found := Filtered(messages, lo, hi, filters);
            lo <= found[i].sequence < hi && Filtered(messages, lo, found[i].sequence + 1, filters) == found[..i + 1]
  {
    hide Filtered, SubjectPasses;
    var found := Filtered(messages, lo, hi, filters);
    MatchesAfter(messages, lo, hi, filters, i);
    RangeSplits(messages, lo, found[i].sequence + 1, hi, filters);
    SameTail(Filtered(messages, lo, found[i].sequence + 1, filters), found, i + 1);
  }

  lemma SameTail<T>(left: seq<T>, all: seq<T>, k: nat)
    requires k <= |all| && all == left + all[k..]
    ensures left == all[..k]
  {
    assert |left| == k;
    assert left == all[..|left|];
  }

  lemma SplitAt(found: seq<Message>, left: seq<Message>, right: seq<Message>, at: nat, i: nat)
    requires Numbered(found) && found == left + right && i < |found| && found[i].sequence == at
    requires (forall m | m in left :: m.sequence < at) && forall m | m in right :: m.sequence >= at
    ensures left == found[..i]
  {
    forall j | 0 <= j < |found| ensures found[j].sequence < at <==> j < |left| {
      assert found[j] == (if j < |left| then left[j] else right[j - |left|]);
    }
    assert i > 0 ==> found[i - 1].sequence < at;
  }

  lemma SplitAfter(found: seq<Message>, left: seq<Message>, right: seq<Message>, at: nat, i: nat)
    requires Numbered(found) && found == left + right && i < |found| && found[i].sequence == at
    requires (forall m | m in left :: m.sequence <= at) && forall m | m in right :: m.sequence > at
    ensures right == found[i + 1..]
  {
    forall j | 0 <= j < |found| ensures found[j].sequence <= at <==> j < |left| {
      assert found[j] == (if j < |left| then left[j] else right[j - |left|]);
    }
    assert i + 1 < |found| ==> found[i + 1].sequence > at;
  }
}
