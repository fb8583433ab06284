/** Package names: a total order to sort them by, and the sorted list of a set of them. */
module Names {

  /** Lexicographic, standing for the locale's order of names: only that it is total matters. */
  predicate Precedes(a: string, b: string) {
    b != [] && (a == [] || a[0] < b[0] || (a[0] == b[0] && Precedes(a[1..], b[1..])))
  }

  lemma {:induction false} PrecedesIrreflexive(a: string)
    ensures !Precedes(a, a)
  {
    if a != [] {
      PrecedesIrreflexive(a[1..]);
    }
  }

  lemma {:induction false} PrecedesTransitive(a: string, b: string, c: string)
    requires Precedes(a, b) && Precedes(b, c)
    ensures Precedes(a, c)
  {
    if a != [] && a[0] == b[0] && b[0] == c[0] {
      PrecedesTransitive(a[1..], b[1..], c[1..]);
    }
  }

  lemma {:induction false} PrecedesTotal(a: string, b: string)
    ensures a == b || Precedes(a, b) || Precedes(b, a)
  {
    if a != [] && b != [] && a[0] == b[0] {
      PrecedesTotal(a[1..], b[1..]);
      assert a == [a[0]] + a[1..] && b == [b[0]] + b[1..];
    }
  }

  /** It is the order of the first difference, a name before its extensions. */
  lemma {:induction false} PrecedesAtFirstDifference(a: string, b: string)
    ensures Precedes(a, b) <==> a < b || exists i :: 0 <= i < |a| && i < |b| && a[..i] == b[..i] && a[i] < b[i]
  {
    if a != [] && b != [] && a[0] == b[0] {
      PrecedesAtFirstDifference(a[1..], b[1..]);
      assert a < b <==> a[1..] < b[1..];
      if i :| 0 <= i < |a[1..]| && i < |b[1..]| && a[1..][..i] == b[1..][..i] && a[1..][i] < b[1..][i] {
        assert a[..i + 1] == [a[0]] + a[1..][..i] && b[..i + 1] == [b[0]] + b[1..][..i];
      }
      if i :| 0 <= i < |a| && i < |b| && a[..i] == b[..i] && a[i] < b[i] {
        assert a[1..][..i - 1] == a[..i][1..] && b[1..][..i - 1] == b[..i][1..];
        assert a[1..][i - 1] < b[1..][i - 1];
      }
    } else if a != [] && b != [] {
      HeadsAgree(a, b);
      assert a[..0] == b[..0];
    }
  }

  lemma HeadsAgree(a: string, b: string)
    requires a != [] && b != []
    ensures forall i | 0 < i <= |a| && i <= |b| && a[..i] == b[..i] :: a[0] == b[0]
  {
    forall i | 0 < i <= |a| && i <= |b| && a[..i] == b[..i] ensures a[0] == b[0] {
      assert a[..i][0] == a[0] && b[..i][0] == b[0];
    }
  }

  predicate IsLeast(a: string, s: set<string>) {
    a in s && forall x | x in s :: x == a || Precedes(a, x)
  }

  lemma {:induction false} LeastExists(s: set<string>)
    requires s != {}
    ensures exists a :: IsLeast(a, s)
  {
    var x :| x in s;
    if s == {x} {
      assert IsLeast(x, s);
    } else {
      var rest := s - {x};
      LeastExists(rest);
      var a :| IsLeast(a, rest);
      PrecedesTotal(a, x);
      if Precedes(a, x) {
        assert IsLeast(a, s);
      } else {
        forall y | y in rest && y != a ensures Precedes(x, y) {
          PrecedesTransitive(x, a, y);
        }
        assert IsLeast(x, s);
      }
    }
  }

  lemma LeastUnique(s: set<string>)
    ensures forall a, b | IsLeast(a, s) && IsLeast(b, s) :: a == b
  {
    forall a, b | IsLeast(a, s) && IsLeast(b, s) ensures a == b {
      if a != b {
        PrecedesTransitive(a, b, a);
        PrecedesIrreflexive(a);
      }
    }
  }

  /** The names of a set in order. */
  function SortedNames(s: set<string>): (names: seq<string>)
    ensures |names| == |s|
    ensures forall x :: x in names <==> x in s
  {
    if s == {} then []
    else
      LeastExists(s);
      LeastUnique(s);
      var a :| IsLeast(a, s);
      [a] + SortedNames(s - {a})
  }

  predicate Increasing(names: seq<string>) {
    forall i, j | 0 <= i < j < |names| :: Precedes(names[i], names[j])
  }

  lemma {:induction false} SortedNamesIncrease(s: set<string>)
    ensures Increasing(SortedNames(s))
  {
    if s != {} {
      LeastExists(s);
      LeastUnique(s);
      var a :| IsLeast(a, s);
      SortedNamesIncrease(s - {a});
      assert forall x | x in SortedNames(s - {a}) :: Precedes(a, x);
    }
  }

  predicate Distinct(names: seq<string>) {
    forall i, j | 0 <= i < j < |names| :: names[i] != names[j]
  }

  lemma {:induction false} SortedNamesDistinct(s: set<string>)
    ensures Distinct(SortedNames(s))
  {
    SortedNamesIncrease(s);
    forall i, j | 0 <= i < j < |s| ensures SortedNames(s)[i] != SortedNames(s)[j] {
      assert Precedes(SortedNames(s)[i], SortedNames(s)[j]);
      PrecedesIrreflexive(SortedNames(s)[i]);
    }
  }
}
