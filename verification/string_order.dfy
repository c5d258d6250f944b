/** The natural order of strings (`String.compareTo`) and sorting a set of strings into a list
    (`new ArrayList<>(set)` followed by `Collections.sort`). */
module StringOrder {

  /** `a.compareTo(b) < 0`: the first differing character decides, and a proper prefix comes
      first. */
  predicate Less(a: string, b: string)
    decreases |a|
  {
    if |a| == 0 then |b| > 0
    else |b| > 0 && (a[0] < b[0] || (a[0] == b[0] && Less(a[1..], b[1..])))
  }

  lemma {:induction false} LessIrreflexive(a: string)
    ensures !Less(a, a)
    decreases |a|
  {
    if |a| > 0 {
      LessIrreflexive(a[1..]);
    }
  }

  /** Any two different strings are ordered one way or the other. */
  lemma {:induction false} LessTotal(a: string, b: string)
    ensures a == b || Less(a, b) || Less(b, a)
    decreases |a|
  {
    if |a| > 0 && |b| > 0 && a[0] == b[0] {
      LessTotal(a[1..], b[1..]);
      if a[1..] == b[1..] {
        assert a == [a[0]] + a[1..] && b == [b[0]] + b[1..];
      }
    }
  }

  lemma {:induction false} LessTransitive(a: string, b: string, c: string)
    requires Less(a, b) && Less(b, c)
    ensures Less(a, c)
    decreases |a|
  {
    if |a| > 0 && a[0] == b[0] && b[0] == c[0] {
      LessTransitive(a[1..], b[1..], c[1..]);
    }
  }

  /** Strictly increasing, hence without repeats. */
  predicate Sorted(xs: seq<string>) {
    forall i, j :: 0 <= i < j < |xs| ==> Less(xs[i], xs[j])
  }

  /** `x` put in its place in a sorted list, unless it is already there. */
  function Insert(xs: seq<string>, x: string): (r: seq<string>)
    requires Sorted(xs)
    ensures Sorted(r)
    ensures forall y :: y in r <==> y in xs || y == x
    ensures x !in xs ==> |r| == |xs| + 1
    ensures x in xs ==> r == xs
  {
    if |xs| == 0 then [x]
    else if x == xs[0] then xs
    else if Less(x, xs[0]) then
      assert forall j :: 0 < j < |xs| ==> Less(x, xs[j]) by {
        forall j | 0 < j < |xs| ensures Less(x, xs[j]) {
          LessTransitive(x, xs[0], xs[j]);
        }
      }
      assert forall y :: y in xs ==> y != x by {
        LessIrreflexive(x);
        forall y | y in xs ensures y != x {
          if y != xs[0] {
            var j :| 0 <= j < |xs| && xs[j] == y;
            LessTransitive(x, xs[0], xs[j]);
            LessIrreflexive(y);
          }
        }
      }
      [x] + xs
    else
      LessTotal(x, xs[0]);
      var rest := Insert(xs[1..], x);
      assert xs == [xs[0]] + xs[1..];
      assert forall j :: 0 <= j < |rest| ==> Less(xs[0], rest[j]) by {
        forall j | 0 <= j < |rest| ensures Less(xs[0], rest[j]) {
          if rest[j] != x {
            assert rest[j] in rest;
            var k :| 0 <= k < |xs[1..]| && xs[1..][k] == rest[j];
            assert xs[k + 1] == rest[j];
          }
        }
      }
      [xs[0]] + rest
  }

  /** The elements of a set as a sorted list. */
  method SortSet(s: set<string>) returns (r: seq<string>)
    ensures Sorted(r)
    ensures forall y :: y in r <==> y in s
    ensures |r| == |s|
  {
    r := [];
    var rest := s;
    while rest != {}
      invariant Sorted(r)
      invariant rest <= s
      invariant forall y :: y in r <==> y in s && y !in rest
      invariant |r| + |rest| == |s|
      decreases rest
    {
      var x :| x in rest;
      r := Insert(r, x);
      rest := rest - {x};
    }
  }
}
