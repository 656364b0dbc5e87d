/** Python's ordering of `str` values (code point by code point, a proper
    prefix first) and `sorted()` of a set of names under it. */
module Order {
  import opened Seqs

  /** `a < b` on Python strings. */
  predicate Less(a: string, b: string)
    decreases |a|
  {
    |b| > 0 && (|a| == 0 || a[0] < b[0] || (a[0] == b[0] && Less(a[1..], b[1..])))
  }

  lemma {:induction false} LessIrreflexive(a: string)
    ensures !Less(a, a)
    decreases |a|
  {
    if |a| > 0 {
      LessIrreflexive(a[1..]);
    }
  }

  lemma {:induction false} LessTransitive(a: string, b: string, c: string)
    requires Less(a, b) && Less(b, c)
    ensures Less(a, c)
    decreases |a|
  {
    if |a| > 0 && a[0] == b[0] && b[0] == c[0] {
      LessTransitive(a[1..], b[1..], c[1..]);
    }
  }

  /** Any two different strings are ordered one way or the other. */
  lemma {:induction false} LessTotal(a: string, b: string)
    requires a != b
    ensures Less(a, b) || Less(b, a)
    decreases |a|
  {
    if |a| > 0 && |b| > 0 && a[0] == b[0] {
      assert a == [a[0]] + a[1..] && b == [b[0]] + b[1..];
      LessTotal(a[1..], b[1..]);
    }
  }

  /** Strictly increasing, hence also free of duplicates. */
  predicate StrictlySorted(s: seq<string>)
  {
    forall i, j :: 0 <= i < j < |s| ==> Less(s[i], s[j])
  }

  /** `m` is the smallest member of `s`. */
  predicate IsLeast(m: string, s: set<string>)
  {
    m in s && forall x :: x in s && x != m ==> Less(m, x)
  }

  lemma {:induction false} LeastExists(s: set<string>)
    requires s != {}
    ensures exists m :: IsLeast(m, s)
    decreases |s|
  {
    var x :| x in s;
    if s == {x} {
      assert IsLeast(x, s);
    } else {
      var rest := s - {x};
      LeastExists(rest);
      var m :| IsLeast(m, rest);
      if Less(x, m) {
        forall y | y in s && y != x
          ensures Less(x, y)
        {
          if y != m { LessTransitive(x, m, y); }
        }
        assert IsLeast(x, s);
      } else {
        LessTotal(x, m);
        assert m in rest && m != x && Less(m, x);
        forall y | y in s && y != m
          ensures Less(m, y)
        {
          if y != x { assert y in rest; }
        }
        assert IsLeast(m, s);
      }
    }
  }

  lemma LeastUnique(s: set<string>)
    ensures forall m1, m2 :: IsLeast(m1, s) && IsLeast(m2, s) ==> m1 == m2
  {
    forall m1, m2 | IsLeast(m1, s) && IsLeast(m2, s)
      ensures m1 == m2
    {
      if m1 != m2 {
        LessTransitive(m1, m2, m1);
        LessIrreflexive(m1);
      }
    }
  }

  /** `sorted(s)`: the members of `s` in ascending order. */
  ghost function Sorted(s: set<string>): (r: seq<string>)
    ensures StrictlySorted(r)
    ensures |r| == |s|
    ensures forall x :: x in r <==> x in s
    decreases |s|
  {
    if s == {} then []
    else
      LeastExists(s);
      var m :| IsLeast(m, s);
      var t := Sorted(s - {m});
      ConsSorted(m, s, t);
      [m] + t
  }

  /** Putting the least member in front of a sorted sequence of the others keeps it sorted. */
  lemma ConsSorted(m: string, s: set<string>, t: seq<string>)
    requires IsLeast(m, s)
    requires StrictlySorted(t)
    requires forall x :: x in t ==> x in s && x != m
    ensures StrictlySorted([m] + t)
  {
    var r := [m] + t;
    forall i, j | 0 <= i < j < |r|
      ensures Less(r[i], r[j])
    {
      assert r[j] == t[j - 1] && r[j] in t;
      if i > 0 { assert r[i] == t[i - 1]; }
    }
  }

  /** The head of a sorted sequence is the least of its members. */
  lemma HeadIsLeast(r: seq<string>, s: set<string>)
    requires StrictlySorted(r) && r != []
    requires forall x :: x in r <==> x in s
    ensures IsLeast(r[0], s)
  {
    forall x | x in s && x != r[0]
      ensures Less(r[0], x)
    {
      var k :| 0 <= k < |r| && r[k] == x;
    }
  }

  /** Dropping the head of a sorted sequence drops exactly that member. */
  lemma TailMembers(r: seq<string>, s: set<string>)
    requires StrictlySorted(r) && r != []
    requires forall x :: x in r <==> x in s
    ensures StrictlySorted(r[1..])
    ensures forall x :: x in r[1..] <==> x in s - {r[0]}
  {
    var tail := r[1..];
    forall x
      ensures x in tail <==> x in s - {r[0]}
    {
      if x in tail {
        var k :| 0 <= k < |tail| && tail[k] == x;
        assert Less(r[0], r[k + 1]);
        if x == r[0] { LessIrreflexive(x); }
      }
      if x in s - {r[0]} {
        var k :| 0 <= k < |r| && r[k] == x;
        assert tail[k - 1] == x;
      }
    }
  }

  /** `Sorted` starts with the least member, followed by the others sorted. */
  lemma SortedFront(s: set<string>)
    requires s != {}
    ensures |Sorted(s)| > 0 && IsLeast(Sorted(s)[0], s)
    ensures Sorted(s)[1..] == Sorted(s - {Sorted(s)[0]})
  {
  }

  /** A strictly increasing sequence is determined by its members: it is `Sorted` of them. */
  lemma {:induction false} SortedUnique(r: seq<string>, s: set<string>)
    requires StrictlySorted(r)
    requires forall x :: x in r <==> x in s
    ensures r == Sorted(s)
    decreases |r|
  {
    if r == [] {
      assert s == {};
    } else {
      var sorted := Sorted(s);
      HeadIsLeast(r, s);
      SortedFront(s);
      LeastUnique(s);
      assert sorted[0] == r[0];
      TailMembers(r, s);
      SortedUnique(r[1..], s - {r[0]});
      HeadTail(sorted);
      HeadTail(r);
    }
  }

  /** `sorted(names)`, computed by repeatedly taking the least remaining name. */
  method SortNames(names: set<string>) returns (r: seq<string>)
    ensures r == Sorted(names)
  {
    var rest := names;
    r := [];
    while rest != {}
      invariant rest <= names
      invariant StrictlySorted(r)
      invariant forall x :: x in r <==> x in names - rest
      invariant forall i, x :: 0 <= i < |r| && x in rest ==> Less(r[i], x)
      decreases |rest|
    {
      LeastExists(rest);
      var m :| IsLeast(m, rest);
      r := r + [m];
      rest := rest - {m};
    }
    SortedUnique(r, names);
  }
}
