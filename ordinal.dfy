/** Ordinal string comparison (StringComparison.Ordinal): code unit by code unit, with
    no culture rules, a proper prefix sorting before the longer string. */
module Ordinal {
  import opened Model

  /** string.Compare(a, b, StringComparison.Ordinal), reduced to its sign. */
  function OrdinalCompare(a: Name, b: Name): (c: int)
    ensures -1 <= c <= 1
    ensures c == 0 <==> a == b
  {
    if a == [] || b == [] then (if a == b then 0 else if a == [] then -1 else 1)
    else if a[0] < b[0] then -1
    else if b[0] < a[0] then 1
    else
      assert a == [a[0]] + a[1..] && b == [b[0]] + b[1..];
      OrdinalCompare(a[1..], b[1..])
  }

  /** Reference definition of "a sorts strictly before b": at the first position where
      they differ a has the smaller code unit, or a is a proper prefix of b. */
  ghost predicate OrdinalLess(a: Name, b: Name) {
    || (exists k :: 0 <= k < |a| && k < |b| && a[..k] == b[..k] && a[k] < b[k])
    || (|a| < |b| && a == b[..|a|])
  }

  lemma {:induction false} CompareIsOrdinalLess(a: Name, b: Name)
    ensures OrdinalCompare(a, b) < 0 <==> OrdinalLess(a, b)
  {
    if a == [] || b == [] {
      if a == [] {
        assert a == b[..|a|];
      }
    } else if a[0] < b[0] {
      assert a[..0] == b[..0];
    } else if b[0] < a[0] {
      assert forall k :: 0 < k <= |a| && k <= |b| ==> a[..k][0] != b[..k][0];
    } else {
      CompareIsOrdinalLess(a[1..], b[1..]);
      if OrdinalLess(a, b) {
        LessDropsHead(a, b);
      }
      if OrdinalLess(a[1..], b[1..]) {
        LessAddsHead(a, b);
      }
    }
  }

  /** Two names that start alike are ordered as their tails are: one direction. */
  lemma LessDropsHead(a: Name, b: Name)
    requires a != [] && b != [] && a[0] == b[0] && OrdinalLess(a, b)
    ensures OrdinalLess(a[1..], b[1..])
  {
    var a', b' := a[1..], b[1..];
    if |a| < |b| && a == b[..|a|] {
      assert a' == b'[..|a'|];
    } else {
      var k :| 0 <= k < |a| && k < |b| && a[..k] == b[..k] && a[k] < b[k];
      assert k != 0;
      assert a'[..k - 1] == a[..k][1..] && b'[..k - 1] == b[..k][1..];
      assert a'[k - 1] == a[k] && b'[k - 1] == b[k];
    }
  }

  /** Two names that start alike are ordered as their tails are: the other direction. */
  lemma LessAddsHead(a: Name, b: Name)
    requires a != [] && b != [] && a[0] == b[0] && OrdinalLess(a[1..], b[1..])
    ensures OrdinalLess(a, b)
  {
    var a', b' := a[1..], b[1..];
    if |a'| < |b'| && a' == b'[..|a'|] {
      assert a == [a[0]] + a' && b[..|a|] == [b[0]] + b'[..|a'|];
    } else {
      var k :| 0 <= k < |a'| && k < |b'| && a'[..k] == b'[..k] && a'[k] < b'[k];
      assert a[..k + 1] == [a[0]] + a'[..k] && b[..k + 1] == [b[0]] + b'[..k];
      assert a[k + 1] == a'[k] && b[k + 1] == b'[k];
    }
  }

  lemma {:induction false} CompareAntisymmetric(a: Name, b: Name)
    ensures OrdinalCompare(a, b) == -OrdinalCompare(b, a)
  {
    if a != [] && b != [] && a[0] == b[0] {
      CompareAntisymmetric(a[1..], b[1..]);
    }
  }

  lemma {:induction false} CompareTransitive(a: Name, b: Name, c: Name)
    requires OrdinalCompare(a, b) <= 0 && OrdinalCompare(b, c) <= 0
    ensures OrdinalCompare(a, c) <= 0
  {
    if a != [] && b != [] && c != [] && a[0] == b[0] == c[0] {
      CompareTransitive(a[1..], b[1..], c[1..]);
    }
  }

  /** Any two names are ordered one way or the other. */
  lemma CompareTotal(a: Name, b: Name)
    ensures OrdinalCompare(a, b) <= 0 || OrdinalCompare(b, a) <= 0
  {
    CompareAntisymmetric(a, b);
  }
}
