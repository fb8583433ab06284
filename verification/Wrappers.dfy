/** What several modules share: an absent value, a source-level throw, and small facts about sequences. */
module Wrappers {

  datatype Option<+T> = None | Some(value: T)

  /** A call that returns, or one that throws. */
  datatype Result<+T, +E> = Ok(value: T) | Err(error: E)

  newtype byte = x: int | 0 <= x < 256

  function Min(a: int, b: int): int { if a <= b then a else b }

  function Max(a: int, b: int): int { if a >= b then a else b }

  lemma SliceOfSlice<T>(s: seq<T>, lo: nat, hi: nat, i: nat, j: nat)
    requires lo <= hi <= |s| && i <= j <= hi - lo
    ensures s[lo..hi][i..j] == s[lo + i..lo + j]
  {
    var a, b := s[lo..hi][i..j], s[lo + i..lo + j];
    assert |a| == |b| && forall k | 0 <= k < |b| :: a[k] == b[k];
  }

  lemma JoinSlices<T>(s: seq<T>, a: nat, b: nat, c: nat)
    requires a <= b <= c <= |s|
    ensures s[a..b] + s[b..c] == s[a..c]
  {
  }

  /** The elements of consecutive parts. */
  function Flatten<T>(parts: seq<seq<T>>): seq<T> {
    if parts == [] then [] else Flatten(parts[..|parts| - 1]) + parts[|parts| - 1]
  }

  lemma FlattenNothing<T>()
    ensures Flatten<T>([]) == []
  {
  }

  lemma {:induction false} FlattenMore<T>(parts: seq<seq<T>>, part: seq<T>)
    ensures Flatten(parts + [part]) == Flatten(parts) + part
  {
    assert (parts + [part])[..|parts|] == parts;
  }

  lemma {:induction false} FlattenFirst<T>(parts: seq<seq<T>>)
    requires parts != []
    ensures Flatten(parts) == parts[0] + Flatten(parts[1..])
  {
    var n := |parts| - 1;
    if n > 0 {
      FlattenFirst(parts[..n]);
      assert parts[..n][1..] == parts[1..][..n - 1] && parts[1..][n - 1] == parts[n];
    }
  }

  lemma {:induction false} FlattenPrefix<T>(parts: seq<seq<T>>, k: nat)
    requires k <= |parts|
    ensures |Flatten(parts[..k])| <= |Flatten(parts)|
    decreases |parts|
  {
    if k < |parts| {
      var n := |parts| - 1;
      FlattenPrefix(parts[..n], k);
      assert parts[..n][..k] == parts[..k];
    } else {
      assert parts[..k] == parts;
    }
  }

  // ------------------------------------------------------------- turned around

  function Reverse<T>(s: seq<T>): (r: seq<T>)
    ensures |r| == |s|
  {
    if s == [] then [] else [s[|s| - 1]] + Reverse(s[..|s| - 1])
  }

  lemma {:induction false} ReverseAt<T>(s: seq<T>, i: nat)
    requires i < |s|
    ensures Reverse(s)[i] == s[|s| - 1 - i]
  {
    if i > 0 {
      ReverseAt(s[..|s| - 1], i - 1);
    }
  }

  lemma {:induction false} ReverseJoin<T>(s: seq<T>, t: seq<T>)
    ensures Reverse(s + t) == Reverse(t) + Reverse(s)
  {
    if t == [] {
      assert s + t == s;
    } else {
      assert (s + t)[..|s + t| - 1] == s + t[..|t| - 1];
      ReverseJoin(s, t[..|t| - 1]);
    }
  }

  lemma {:induction false} ReverseIn<T>(s: seq<T>, x: T)
    ensures x in Reverse(s) <==> x in s
  {
    if s != [] {
      ReverseIn(s[..|s| - 1], x);
      assert s == s[..|s| - 1] + [s[|s| - 1]];
    }
  }

  lemma {:induction false} ReverseTwice<T>(s: seq<T>)
    ensures Reverse(Reverse(s)) == s
  {
    if s != [] {
      var n := |s| - 1;
      ReverseTwice(s[..n]);
      ReverseJoin([s[n]], Reverse(s[..n]));
      assert Reverse([s[n]]) == [s[n]] by {
        assert [s[n]][..0] == [];
      }
    }
  }

  lemma {:induction false} ReverseCut<T>(s: seq<T>, k: nat)
    requires k <= |s|
    ensures Reverse(Reverse(s)[..k]) == s[|s| - k..]
  {
    var m := |s| - k;
    assert s == s[..m] + s[m..];
    ReverseJoin(s[..m], s[m..]);
    assert Reverse(s)[..k] == Reverse(s[m..]);
    ReverseTwice(s[m..]);
  }
}
