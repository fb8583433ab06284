/** Natural numbers in decimal, and texts joined by separators. */
module Decimals {

  predicate IsDigit(c: char) { '0' <= c <= '9' }

  function Decimal(n: nat): (s: string)
    ensures s != "" && forall c | c in s :: IsDigit(c)
  {
    var digit := [('0' as int + n % 10) as char];
    if n < 10 then digit else Decimal(n / 10) + digit
  }

  function ParseInt(s: string): nat
    requires forall c | c in s :: IsDigit(c)
  {
    if s == "" then 0
    else
      assert IsDigit(s[|s| - 1]);
      ParseInt(s[..|s| - 1]) * 10 + (s[|s| - 1] as int - '0' as int)
  }

  lemma {:induction false} ParseDecimal(n: nat)
    ensures ParseInt(Decimal(n)) == n
  {
    if n >= 10 {
      ParseDecimal(n / 10);
      assert Decimal(n)[..|Decimal(n)| - 1] == Decimal(n / 10);
    } else {
      assert Decimal(n)[..0] == "";
    }
  }

  /** Where the first part has no separator, the split is unique. */
  lemma SplitsAtFirst(a: string, b: string, c: string, d: string, separator: char)
    requires separator !in a && separator !in c && a + [separator] + b == c + [separator] + d
    ensures a == c && b == d
  {
    var s := a + [separator] + b;
    assert s[|a|] == separator && s[|c|] == separator;
    assert forall i | 0 <= i < |a| :: s[i] == a[i];
    assert forall i | 0 <= i < |c| :: s[i] == c[i];
    assert a == s[..|a|] && c == s[..|c|] && b == s[|a| + 1..] && d == s[|c| + 1..];
  }

  /** Where the last part has none, too. */
  lemma SplitsAtLast(a: string, b: string, c: string, d: string, separator: char)
    requires separator !in b && separator !in d && a + [separator] + b == c + [separator] + d
    ensures a == c && b == d
  {
    var s := a + [separator] + b;
    assert s[|a|] == separator && s[|c|] == separator;
    assert forall i | |a| < i < |s| :: s[i] == b[i - |a| - 1];
    assert forall i | |c| < i < |s| :: s[i] == d[i - |c| - 1];
    assert a == s[..|a|] && c == s[..|c|] && b == s[|a| + 1..] && d == s[|c| + 1..];
  }
}
