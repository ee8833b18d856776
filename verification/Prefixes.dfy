/** Strings as character sequences: the prefix order and longest common prefixes. */
module Prefixes {

  /** The length of the longest common prefix of a and b. */
  function Shared(a: string, b: string): (n: nat)
    ensures n <= |a| && n <= |b|
    ensures a[..n] == b[..n]
    ensures n < |a| && n < |b| ==> a[n] != b[n]
  {
    if a == "" || b == "" || a[0] != b[0] then 0
    else
      var n := 1 + Shared(a[1..], b[1..]);
      assert a[..n] == [a[0]] + a[1..][..n - 1];
      assert b[..n] == [b[0]] + b[1..][..n - 1];
      n
  }

  /** The longest common prefix itself. */
  function Meet(a: string, b: string): (m: string)
    ensures m <= a && m <= b
  {
    a[..Shared(a, b)]
  }

  /** A common prefix of two strings is a prefix of their meet. */
  lemma {:induction false} MeetIsGreatest(a: string, b: string, s: string)
    requires s <= a && s <= b
    ensures s <= Meet(a, b)
  {
    if s != "" {
      MeetIsGreatest(a[1..], b[1..], s[1..]);
    }
  }

  lemma MeetUnique(a: string, b: string, m: string)
    requires m <= a && m <= b
    requires |m| < |a| && |m| < |b| ==> a[|m|] != b[|m|]
    ensures Meet(a, b) == m
  {
    MeetIsGreatest(a, b, m);
    var n := Shared(a, b);
    forall i | 0 <= i < n ensures a[i] == b[i] {
      assert a[..n][i] == b[..n][i];
    }
  }

  lemma MeetSymmetric(a: string, b: string)
    ensures Meet(a, b) == Meet(b, a)
  {
    MeetUnique(b, a, Meet(a, b));
  }

  /** Two prefixes of one string are prefixes of each other. */
  lemma PrefixesNest(a: string, b: string, s: string)
    requires a <= s && b <= s && |a| <= |b|
    ensures a <= b
  {
  }
}
