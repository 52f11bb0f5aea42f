/** The stable sort of the library calls `sorted` and `Array.prototype.sort`. */
module Sorting {
  ghost predicate TotalPreorder<T(!new)>(le: (T, T) -> bool) {
    && (forall a, b :: le(a, b) || le(b, a))
    && (forall a, b, c :: le(a, b) && le(b, c) ==> le(a, c))
  }

  ghost predicate Sorted<T>(s: seq<T>, le: (T, T) -> bool) {
    forall i, j :: 0 <= i < j < |s| ==> le(s[i], s[j])
  }

  function Insert<T>(x: T, s: seq<T>, le: (T, T) -> bool): seq<T> {
    if s == [] || le(x, s[0]) then [x] + s else [s[0]] + Insert(x, s[1..], le)
  }

  function Sort<T>(s: seq<T>, le: (T, T) -> bool): seq<T> {
    if s == [] then [] else Insert(s[0], Sort(s[1..], le), le)
  }

  lemma {:induction false} InsertPerm<T>(x: T, s: seq<T>, le: (T, T) -> bool)
    ensures multiset(Insert(x, s, le)) == multiset{x} + multiset(s)
    ensures |Insert(x, s, le)| == |s| + 1
  {
    if s != [] && !le(x, s[0]) {
      InsertPerm(x, s[1..], le);
      assert s == [s[0]] + s[1..];
    }
  }

  lemma {:induction false} SortPerm<T>(s: seq<T>, le: (T, T) -> bool)
    ensures multiset(Sort(s, le)) == multiset(s) && |Sort(s, le)| == |s|
  {
    if s != [] {
      SortPerm(s[1..], le);
      InsertPerm(s[0], Sort(s[1..], le), le);
      assert s == [s[0]] + s[1..];
    }
  }

  lemma {:induction false} InsertSorted<T(!new)>(x: T, s: seq<T>, le: (T, T) -> bool)
    requires TotalPreorder(le) && Sorted(s, le)
    ensures Sorted(Insert(x, s, le), le)
  {
    if s != [] {
      if le(x, s[0]) {
        forall j | 0 <= j < |s| ensures le(x, s[j]) {
          if j > 0 { assert le(s[0], s[j]); }
        }
      } else {
        var rest := Insert(x, s[1..], le);
        InsertSorted(x, s[1..], le);
        InsertPerm(x, s[1..], le);
        forall j | 0 <= j < |rest| ensures le(s[0], rest[j]) {
          assert rest[j] in multiset(rest);
          assert rest[j] == x || rest[j] in s[1..];
        }
      }
    }
  }

  lemma {:induction false} SortSorted<T(!new)>(s: seq<T>, le: (T, T) -> bool)
    requires TotalPreorder(le)
    ensures Sorted(Sort(s, le), le)
  {
    if s != [] {
      SortSorted(s[1..], le);
      InsertSorted(s[0], Sort(s[1..], le), le);
    }
  }

  lemma SortMembers<T>(s: seq<T>, le: (T, T) -> bool, x: T)
    ensures x in Sort(s, le) <==> x in s
  {
    SortPerm(s, le);
    assert x in multiset(Sort(s, le)) <==> x in multiset(s);
  }

  /** Of elements that tie, the one with the lower rank stands first. */
  ghost predicate TiesByRank<T>(s: seq<T>, le: (T, T) -> bool, rank: T -> int) {
    forall i, j :: 0 <= i < j < |s| && le(s[j], s[i]) ==> rank(s[i]) < rank(s[j])
  }

  lemma {:induction false} InsertStable<T(!new)>(x: T, s: seq<T>, le: (T, T) -> bool, rank: T -> int)
    requires TotalPreorder(le) && Sorted(s, le) && TiesByRank(s, le, rank)
    requires forall y :: y in s ==> rank(x) < rank(y)
    ensures TiesByRank(Insert(x, s, le), le, rank)
  {
    if s != [] && !le(x, s[0]) {
      InsertStable(x, s[1..], le, rank);
      var rest := Insert(x, s[1..], le);
      forall j | 0 <= j < |rest| && le(rest[j], s[0]) ensures rank(s[0]) < rank(rest[j]) {
        InsertMember(x, s[1..], le, rest[j]);
      }
    }
  }

  lemma InsertMember<T>(x: T, s: seq<T>, le: (T, T) -> bool, y: T)
    requires y in Insert(x, s, le)
    ensures y == x || y in s
  {
    InsertPerm(x, s, le);
    assert y in multiset(Insert(x, s, le));
  }

  /** The sort is stable: elements that tie keep the order they came in. */
  lemma {:induction false} SortStable<T(!new)>(s: seq<T>, le: (T, T) -> bool, rank: T -> int)
    requires TotalPreorder(le) && forall i, j :: 0 <= i < j < |s| ==> rank(s[i]) < rank(s[j])
    ensures TiesByRank(Sort(s, le), le, rank)
  {
    if s != [] {
      SortStable(s[1..], le, rank);
      SortSorted(s[1..], le);
      forall y | y in Sort(s[1..], le) ensures rank(s[0]) < rank(y) {
        SortMembers(s[1..], le, y);
        var i :| 0 <= i < |s[1..]| && s[1..][i] == y;
        assert s[i + 1] == y;
      }
      InsertStable(s[0], Sort(s[1..], le), le, rank);
    }
  }

  ghost predicate Distinct<T>(s: seq<T>) {
    forall i, j :: 0 <= i < j < |s| ==> s[i] != s[j]
  }

  lemma CountTwo<T>(s: seq<T>, i: nat, j: nat)
    requires i < j < |s| && s[i] == s[j]
    ensures multiset(s)[s[i]] >= 2
  {
    var a, b := s[..j], s[j..];
    assert s == a + b && s[i] in a && s[i] in b by { assert a[i] == s[i] && b[0] == s[j]; }
    assert multiset(s) == multiset(a) + multiset(b);
    assert s[i] in multiset(a) && s[i] in multiset(b);
  }

  lemma {:induction false} DistinctCounts<T>(s: seq<T>)
    ensures Distinct(s) <==> forall x :: multiset(s)[x] <= 1
  {
    if Distinct(s) {
      if s != [] {
        assert Distinct(s[1..]) by { forall i, j | 0 <= i < j < |s[1..]| ensures s[1..][i] != s[1..][j] { assert s[i + 1] != s[j + 1]; } }
        DistinctCounts(s[1..]);
        assert s == [s[0]] + s[1..];
        assert multiset(s) == multiset{s[0]} + multiset(s[1..]);
        assert s[0] !in s[1..];
      }
    } else {
      var i, j :| 0 <= i < j < |s| && s[i] == s[j];
      CountTwo(s, i, j);
    }
  }

  /** Sorting keeps distinct elements distinct. */
  lemma SortDistinct<T>(s: seq<T>, le: (T, T) -> bool)
    ensures Distinct(Sort(s, le)) <==> Distinct(s)
  {
    SortPerm(s, le);
    DistinctCounts(s);
    DistinctCounts(Sort(s, le));
  }
}
