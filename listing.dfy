// Selecting and ordering contest records. Both halves of the system do this:
// the backend with SQL `WHERE` and `ORDER BY` clauses, the home page with
// `Array.prototype.filter` and a stable `Array.prototype.sort`.
module Listing {
  import opened Results
  import opened Models

  /** A row filter, written out as data so that two filters can be compared. */
  datatype Criterion =
    | Any
    | ClassIs(classLevel: int)
    | YearIs(year: int)
    | PreIs(preNumber: int)
    // The home page's filter: the class, and the year unless none is selected.
    | ClassAndYear(selectedClass: int, selectedYear: Option<int>)

  predicate Holds(k: Criterion, c: ContestRead) {
    match k
    case Any => true
    case ClassIs(cls) => c.classLevel == cls
    case YearIs(y) => c.year == y
    case PreIs(p) => c.preNumber == p
    case ClassAndYear(cls, y) => c.classLevel == cls && (y.None? || c.year == y.value)
  }

  /** `a` occurs in `b` in order, possibly with gaps. */
  predicate Subsequence(a: seq<ContestRead>, b: seq<ContestRead>)
    decreases |b|
  {
    a == [] ||
    (b != [] &&
     ((a[|a| - 1] == b[|b| - 1] && Subsequence(a[..|a| - 1], b[..|b| - 1])) ||
      Subsequence(a, b[..|b| - 1])))
  }

  /** The elements of `s` that satisfy `k`, in the order of `s`. */
  function Filter(s: seq<ContestRead>, k: Criterion): (r: seq<ContestRead>)
    ensures |r| <= |s|
  {
    if s == [] then []
    else Filter(s[..|s| - 1], k) + (if Holds(k, s[|s| - 1]) then [s[|s| - 1]] else [])
  }

  /** `Filter` keeps exactly the elements that satisfy the criterion. */
  lemma {:induction false} FilterMembers(s: seq<ContestRead>, k: Criterion)
    ensures forall c :: c in Filter(s, k) <==> c in s && Holds(k, c)
  {
    if s != [] {
      FilterMembers(s[..|s| - 1], k);
      assert s == s[..|s| - 1] + [s[|s| - 1]];
    }
  }

  /** `Filter` keeps each satisfying element as often as it occurs, and no other. */
  lemma {:induction false} FilterCounts(s: seq<ContestRead>, k: Criterion)
    ensures forall c :: multiset(Filter(s, k))[c] == if Holds(k, c) then multiset(s)[c] else 0
  {
    if s != [] {
      var init := s[..|s| - 1];
      var last := s[|s| - 1];
      assert s == init + [last];
      FilterCounts(init, k);
    }
  }

  /** `Filter` keeps the input order. */
  lemma {:induction false} FilterIsSubsequence(s: seq<ContestRead>, k: Criterion)
    ensures Subsequence(Filter(s, k), s)
  {
    if s != [] {
      var init := s[..|s| - 1];
      var last := s[|s| - 1];
      var r := Filter(s, k);
      FilterIsSubsequence(init, k);
      assert s[..|s| - 1] == init;
      if Holds(k, last) {
        assert r == Filter(init, k) + [last];
        assert r[..|r| - 1] == Filter(init, k);
        assert r[|r| - 1] == s[|s| - 1];
      } else {
        assert r == Filter(init, k);
      }
    }
  }

  lemma {:induction false} FilterAppend(s: seq<ContestRead>, c: ContestRead, k: Criterion)
    ensures Filter(s + [c], k) == Filter(s, k) + (if Holds(k, c) then [c] else [])
  {
    assert (s + [c])[..|s|] == s;
  }

  lemma {:induction false} FilterConcat(a: seq<ContestRead>, b: seq<ContestRead>, k: Criterion)
    ensures Filter(a + b, k) == Filter(a, k) + Filter(b, k)
    decreases |b|
  {
    if b != [] {
      var init := b[..|b| - 1];
      var last := b[|b| - 1];
      var tail := if Holds(k, last) then [last] else [];
      assert (a + b)[..|a + b| - 1] == a + init;
      assert (a + b)[|a + b| - 1] == last;
      calc {
        Filter(a + b, k);
        Filter(a + init, k) + tail;
        { FilterConcat(a, init, k); }
        (Filter(a, k) + Filter(init, k)) + tail;
        Filter(a, k) + (Filter(init, k) + tail);
      }
    } else {
      assert a + b == a;
    }
  }

  lemma {:induction false} FilterNone(s: seq<ContestRead>, k: Criterion)
    requires forall c :: c in s ==> !Holds(k, c)
    ensures Filter(s, k) == []
  {
    if s != [] {
      assert s[|s| - 1] in s;
      FilterNone(s[..|s| - 1], k);
    }
  }

  /** Filtering twice is filtering once by the conjunction. */
  lemma {:induction false} FilterTwice(s: seq<ContestRead>, k1: Criterion, k2: Criterion, both: Criterion)
    requires forall c :: Holds(both, c) <==> Holds(k1, c) && Holds(k2, c)
    ensures Filter(Filter(s, k1), k2) == Filter(s, both)
  {
    if s != [] {
      var init := s[..|s| - 1];
      var last := s[|s| - 1];
      FilterTwice(init, k1, k2, both);
      if Holds(k1, last) {
        calc {
          Filter(Filter(s, k1), k2);
          Filter(Filter(init, k1) + [last], k2);
          { FilterAppend(Filter(init, k1), last, k2); }
          Filter(Filter(init, k1), k2) + (if Holds(k2, last) then [last] else []);
          Filter(s, both);
        }
      } else {
        assert Filter(s, k1) == Filter(init, k1);
        assert Filter(s, both) == Filter(init, both);
      }
    }
  }

  // ----- Orderings -----

  /** The sort orders the system uses. */
  datatype Order =
    | PreAsc            // the home page's cards: `a.pre_number - b.pre_number`
    | YearDescPreAsc    // `ORDER BY year DESC, pre_number`
    | ClassAscPreAsc    // `ORDER BY class_level, pre_number`

  /** `a` may come before `b`: a total preorder for each order. */
  predicate Before(o: Order, a: ContestRead, b: ContestRead) {
    match o
    case PreAsc => a.preNumber <= b.preNumber
    case YearDescPreAsc => a.year > b.year || (a.year == b.year && a.preNumber <= b.preNumber)
    case ClassAscPreAsc => a.classLevel < b.classLevel || (a.classLevel == b.classLevel && a.preNumber <= b.preNumber)
  }

  predicate Sorted(o: Order, s: seq<ContestRead>) {
    forall i, j :: 0 <= i < j < |s| ==> Before(o, s[i], s[j])
  }

  /** Insert `x` after every element that it does not strictly precede. */
  function Insert(o: Order, x: ContestRead, s: seq<ContestRead>): (r: seq<ContestRead>)
    requires Sorted(o, s)
    ensures Sorted(o, r)
    ensures |r| == |s| + 1
    ensures multiset(r) == multiset(s) + multiset{x}
  {
    if s == [] then [x]
    else if !Before(o, s[0], x) then
      PrecedesAll(o, x, s);
      LeadingElement(o, x, s);
      [x] + s
    else
      var tail := Insert(o, x, s[1..]);
      HeadPrecedesInserted(o, x, s, tail);
      LeadingElement(o, s[0], tail);
      assert s == [s[0]] + s[1..];
      [s[0]] + tail
  }

  /** An element that the head of a sorted sequence does not precede precedes all of it. */
  lemma PrecedesAll(o: Order, x: ContestRead, s: seq<ContestRead>)
    requires Sorted(o, s) && s != [] && !Before(o, s[0], x)
    ensures forall y :: y in s ==> Before(o, x, y)
  {
    forall y | y in s ensures Before(o, x, y) {
      var j :| 0 <= j < |s| && s[j] == y;
      assert j == 0 || Before(o, s[0], s[j]);
    }
  }

  /** The head of a sorted sequence precedes the rest with `x` inserted, when it precedes `x`. */
  lemma HeadPrecedesInserted(o: Order, x: ContestRead, s: seq<ContestRead>, tail: seq<ContestRead>)
    requires Sorted(o, s) && s != [] && Before(o, s[0], x)
    requires multiset(tail) == multiset(s[1..]) + multiset{x}
    ensures forall y :: y in tail ==> Before(o, s[0], y)
  {
    forall y | y in tail ensures Before(o, s[0], y) {
      assert y in multiset(tail);
      if y != x {
        assert y in s[1..];
        var j :| 0 <= j < |s[1..]| && s[1..][j] == y;
        assert s[j + 1] == y;
      }
    }
  }

  lemma LeadingElement(o: Order, head: ContestRead, tail: seq<ContestRead>)
    requires Sorted(o, tail)
    requires forall y :: y in tail ==> Before(o, head, y)
    ensures Sorted(o, [head] + tail)
  {
    var r := [head] + tail;
    forall i, j | 0 <= i < j < |r| ensures Before(o, r[i], r[j]) {
      if i == 0 {
        assert r[j] == tail[j - 1] && tail[j - 1] in tail;
      } else {
        assert r[i] == tail[i - 1] && r[j] == tail[j - 1];
      }
    }
  }

  /** Insertion sort: each element goes after the equal ones already placed, so the sort is stable. */
  function SortStable(o: Order, s: seq<ContestRead>): (r: seq<ContestRead>)
    ensures Sorted(o, r)
    ensures multiset(r) == multiset(s)
    ensures |r| == |s|
  {
    if s == [] then []
    else
      assert s == s[..|s| - 1] + [s[|s| - 1]];
      Insert(o, s[|s| - 1], SortStable(o, s[..|s| - 1]))
  }

  lemma {:induction false} InsertKeepsPreGroups(x: ContestRead, s: seq<ContestRead>, p: int)
    requires Sorted(PreAsc, s)
    ensures Filter(Insert(PreAsc, x, s), PreIs(p)) == Filter(s, PreIs(p)) + (if x.preNumber == p then [x] else [])
  {
    if s == [] {
      SingletonFilter(x, PreIs(p));
    } else if !Before(PreAsc, s[0], x) {
      InsertFrontKeepsPreGroups(x, s, p);
    } else {
      InsertKeepsPreGroups(x, s[1..], p);
      InsertLaterKeepsPreGroups(x, s, p);
    }
  }

  lemma InsertLaterKeepsPreGroups(x: ContestRead, s: seq<ContestRead>, p: int)
    requires Sorted(PreAsc, s) && s != [] && Before(PreAsc, s[0], x)
    requires Filter(Insert(PreAsc, x, s[1..]), PreIs(p)) == Filter(s[1..], PreIs(p)) + (if x.preNumber == p then [x] else [])
    ensures Filter(Insert(PreAsc, x, s), PreIs(p)) == Filter(s, PreIs(p)) + (if x.preNumber == p then [x] else [])
  {
    InsertAfterHead(x, s);
    FilterConsBoth(s[0], Insert(PreAsc, x, s[1..]), s[1..], PreIs(p), if x.preNumber == p then [x] else []);
    assert [s[0]] + s[1..] == s;
  }

  /** Putting the same element in front of two lists keeps a relation between their filters. */
  lemma FilterConsBoth(h: ContestRead, a: seq<ContestRead>, b: seq<ContestRead>, k: Criterion, extra: seq<ContestRead>)
    requires Filter(a, k) == Filter(b, k) + extra
    ensures Filter([h] + a, k) == Filter([h] + b, k) + extra
  {
    FilterConcat([h], a, k);
    FilterConcat([h], b, k);
  }

  lemma InsertAfterHead(x: ContestRead, s: seq<ContestRead>)
    requires Sorted(PreAsc, s) && s != [] && Before(PreAsc, s[0], x)
    ensures Insert(PreAsc, x, s) == [s[0]] + Insert(PreAsc, x, s[1..])
  {
  }

  lemma SingletonFilter(x: ContestRead, k: Criterion)
    ensures Filter([x], k) == if Holds(k, x) then [x] else []
  {
    FilterAppend([], x, k);
    assert [] + [x] == [x];
  }

  lemma InsertFrontKeepsPreGroups(x: ContestRead, s: seq<ContestRead>, p: int)
    requires Sorted(PreAsc, s) && s != [] && x.preNumber < s[0].preNumber
    ensures Filter(Insert(PreAsc, x, s), PreIs(p)) == Filter(s, PreIs(p)) + (if x.preNumber == p then [x] else [])
  {
    var k := PreIs(p);
    assert Insert(PreAsc, x, s) == [x] + s;
    FilterConcat([x], s, k);
    SingletonFilter(x, k);
    if x.preNumber == p {
      forall c | c in s ensures !Holds(k, c) {
        var j :| 0 <= j < |s| && s[j] == c;
        assert j == 0 || Before(PreAsc, s[0], s[j]);
      }
      FilterNone(s, k);
    }
  }

  /** Stability: contests with equal `pre_number` keep their relative order. */
  lemma {:induction false} SortStableKeepsPreGroups(s: seq<ContestRead>, p: int)
    ensures Filter(SortStable(PreAsc, s), PreIs(p)) == Filter(s, PreIs(p))
  {
    if s != [] {
      var init := s[..|s| - 1];
      var last := s[|s| - 1];
      assert s == init + [last];
      SortStableKeepsPreGroups(init, p);
      InsertKeepsPreGroups(last, SortStable(PreAsc, init), p);
      FilterAppend(init, last, PreIs(p));
    }
  }

  // ----- Distinct years, newest first -----

  predicate StrictlyDescending(s: seq<int>) {
    forall i, j :: 0 <= i < j < |s| ==> s[i] > s[j]
  }

  lemma NonEmptyHasElement(ys: set<int>)
    requires ys != {}
    ensures exists x :: x in ys
  {
    assert (forall x :: x !in ys) ==> ys == {};
  }

  lemma {:induction false} MaxExists(ys: set<int>)
    requires ys != {}
    ensures exists m :: m in ys && forall z :: z in ys ==> z <= m
  {
    NonEmptyHasElement(ys);
    var x :| x in ys;
    if ys != {x} {
      MaxExists(ys - {x});
      var m :| m in ys - {x} && forall z :: z in ys - {x} ==> z <= m;
      var top := if x > m then x else m;
      forall z | z in ys ensures z <= top {
        if z != x {
          assert z in ys - {x};
        }
      }
      assert top in ys;
    } else {
      assert forall z :: z in ys ==> z <= x;
    }
  }

  function Max(ys: set<int>): (m: int)
    requires ys != {}
    ensures m in ys && forall z :: z in ys ==> z <= m
  {
    MaxExists(ys);
    var m :| m in ys && forall z :: z in ys ==> z <= m;
    m
  }

  /** The elements of `ys`, largest first: `[...ys].sort((a, b) => b - a)`. */
  function Descending(ys: set<int>): (r: seq<int>)
    ensures StrictlyDescending(r)
    ensures forall z :: z in r <==> z in ys
    ensures |r| == |ys|
    ensures ys != {} ==> r[0] == Max(ys)
  {
    if ys == {} then []
    else
      var m := Max(ys);
      var rest := Descending(ys - {m});
      assert forall z :: z in rest ==> z < m;
      ConsDescending(m, rest);
      assert ys == (ys - {m}) + {m};
      [m] + rest
  }

  lemma ConsDescending(m: int, rest: seq<int>)
    requires StrictlyDescending(rest)
    requires forall z :: z in rest ==> z < m
    ensures StrictlyDescending([m] + rest)
  {
    forall i, j | 0 <= i < j < |rest| + 1 ensures ([m] + rest)[i] > ([m] + rest)[j] {
      if i == 0 {
        assert rest[j - 1] in rest;
      }
    }
  }

  function YearsOf(s: seq<ContestRead>): (ys: set<int>)
    ensures forall c :: c in s ==> c.year in ys
    ensures forall y :: y in ys ==> exists c :: c in s && c.year == y
  {
    set c | c in s :: c.year
  }
}
