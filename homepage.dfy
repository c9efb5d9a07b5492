// The public contest browser (frontend/src/pages/HomePage.tsx): the chosen
// class and year select contests, the class's contests are grouped by year
// for the sidebar, a default year is picked once contests arrive, and the
// selected contests are shown as cards ordered by pre number.
module HomePage {
  import opened Results
  import opened Models
  import opened Listing
  import opened Numbers
  import opened ApiClient

  // ----- Derived lists -----

  /** `filteredContests`: the contests of the selected class and, when a year
      is selected, of that year; `None` stands for a null `selectedYear`. */
  function FilteredContests(contests: seq<ContestRead>, selectedClass: int, selectedYear: Option<int>): seq<ContestRead> {
    Filter(contests, ClassAndYear(selectedClass, selectedYear))
  }

  /** Exactly the matching contests, each as often as in the input, in input order. */
  lemma FilteredContestsSpec(contests: seq<ContestRead>, selectedClass: int, selectedYear: Option<int>)
    ensures var f := FilteredContests(contests, selectedClass, selectedYear);
      && (forall c :: c in f <==> (c in contests && c.classLevel == selectedClass
                                  && (selectedYear.None? || c.year == selectedYear.value)))
      && (forall c :: multiset(f)[c] == if c.classLevel == selectedClass && (selectedYear.None? || c.year == selectedYear.value)
                                         then multiset(contests)[c] else 0)
      && Subsequence(f, contests)
  {
    FilterMembers(contests, ClassAndYear(selectedClass, selectedYear));
    FilterCounts(contests, ClassAndYear(selectedClass, selectedYear));
    FilterIsSubsequence(contests, ClassAndYear(selectedClass, selectedYear));
  }

  /** What `contestsByYear` holds: one bucket per year of the class's contests,
      holding that year's contests in input order. */
  function Buckets(contests: seq<ContestRead>, selectedClass: int): map<int, seq<ContestRead>> {
    map y | y in YearsOf(Filter(contests, ClassIs(selectedClass))) :: FilteredContests(contests, selectedClass, Some(y))
  }

  /** The buckets partition the class's contests by year: each contest is in
      the bucket of its own year and in no other, no bucket is empty, and every
      bucket keeps input order. */
  lemma BucketsPartition(contests: seq<ContestRead>, selectedClass: int)
    ensures var b := Buckets(contests, selectedClass);
      && (forall c :: c in contests && c.classLevel == selectedClass ==> c.year in b && c in b[c.year])
      && (forall y, c :: y in b && c in b[y] ==> c in contests && c.classLevel == selectedClass && c.year == y)
      && (forall y :: y in b ==> b[y] != [] && Subsequence(b[y], contests))
  {
    var b := Buckets(contests, selectedClass);
    var ofClass := Filter(contests, ClassIs(selectedClass));
    FilterMembers(contests, ClassIs(selectedClass));
    forall y ensures forall c :: c in Filter(contests, ClassAndYear(selectedClass, Some(y))) <==> (c in contests && Holds(ClassAndYear(selectedClass, Some(y)), c)) {
      FilterMembers(contests, ClassAndYear(selectedClass, Some(y)));
    }
    forall y | y in b ensures b[y] != [] && Subsequence(b[y], contests) {
      var c :| c in ofClass && c.year == y;
      assert c in b[y];
      FilterIsSubsequence(contests, ClassAndYear(selectedClass, Some(y)));
    }
  }

  /** The accumulator after pushing `c` onto its year's array. */
  ghost function Pushed(acc: map<int, seq<ContestRead>>, c: ContestRead): map<int, seq<ContestRead>> {
    var created := if c.year in acc then acc else acc[c.year := []];
    created[c.year := created[c.year] + [c]]
  }

  /** A push adds the contest's year to the keys... */
  lemma PushKeys(acc: map<int, seq<ContestRead>>, xs: seq<ContestRead>, i: nat)
    requires i < |xs| && acc.Keys == YearsOf(xs[..i])
    ensures Pushed(acc, xs[i]).Keys == YearsOf(xs[..i + 1])
  {
    assert xs[..i + 1] == xs[..i] + [xs[i]];
    assert YearsOf(xs[..i + 1]) == YearsOf(xs[..i]) + {xs[i].year};
  }

  /** ...and extends that year's array, which starts out empty. */
  lemma PushBuckets(acc: map<int, seq<ContestRead>>, xs: seq<ContestRead>, i: nat)
    requires i < |xs| && acc.Keys == YearsOf(xs[..i])
    requires forall y :: y in acc ==> acc[y] == Filter(xs[..i], YearIs(y))
    ensures forall y :: y in Pushed(acc, xs[i]) ==> Pushed(acc, xs[i])[y] == Filter(xs[..i + 1], YearIs(y))
  {
    var s, c := xs[..i], xs[i];
    assert xs[..i + 1] == s + [c];
    if c.year !in acc {
      assert forall x :: x in s ==> !Holds(YearIs(c.year), x);
      FilterNone(s, YearIs(c.year));
    }
    var next := Pushed(acc, c);
    forall y | y in next ensures next[y] == Filter(s + [c], YearIs(y)) {
      FilterAppend(s, c, YearIs(y));
    }
  }

  /** Grouping all of the class's contests by year gives the buckets. */
  lemma GroupedAreBuckets(acc: map<int, seq<ContestRead>>, contests: seq<ContestRead>, selectedClass: int, done: seq<ContestRead>)
    requires done == Filter(contests, ClassIs(selectedClass))
    requires acc.Keys == YearsOf(done)
    requires forall y :: y in acc ==> acc[y] == Filter(done, YearIs(y))
    ensures acc == Buckets(contests, selectedClass)
  {
    var b := Buckets(contests, selectedClass);
    forall y | y in acc ensures acc[y] == b[y] {
      FilterTwice(contests, ClassIs(selectedClass), YearIs(y), ClassAndYear(selectedClass, Some(y)));
    }
  }

  /** The `reduce` step of `contestsByYear`: each contest is pushed onto the
      array kept for its year, which is created on first use. */
  method GroupByYear(xs: seq<ContestRead>) returns (acc: map<int, seq<ContestRead>>)
    ensures acc.Keys == YearsOf(xs)
    ensures forall y :: y in acc ==> acc[y] == Filter(xs, YearIs(y))
  {
    acc := map[];
    var i := 0;
    while i < |xs|
      invariant 0 <= i <= |xs|
      invariant acc.Keys == YearsOf(xs[..i])
      invariant forall y :: y in acc ==> acc[y] == Filter(xs[..i], YearIs(y))
    {
      var c := xs[i];
      ghost var before := acc;
      if c.year !in acc {
        acc := acc[c.year := []];
      }
      acc := acc[c.year := acc[c.year] + [c]];
      PushKeys(before, xs, i);
      PushBuckets(before, xs, i);
      i := i + 1;
    }
    assert xs[..i] == xs;
  }

  /** `contestsByYear`: the selected class's contests, grouped by year. */
  method ContestsByYear(contests: seq<ContestRead>, selectedClass: int) returns (acc: map<int, seq<ContestRead>>)
    ensures acc == Buckets(contests, selectedClass)
  {
    var ofClass := Filter(contests, ClassIs(selectedClass));
    acc := GroupByYear(ofClass);
    GroupedAreBuckets(acc, contests, selectedClass, ofClass);
  }

  /** The sidebar's years: the keys of `contestsByYear`, newest first. */
  function SidebarYears(contests: seq<ContestRead>, selectedClass: int): seq<int> {
    Descending(Buckets(contests, selectedClass).Keys)
  }

  /** The sidebar lists each year of the class's contests exactly once, newest first. */
  lemma SidebarYearsSpec(contests: seq<ContestRead>, selectedClass: int)
    ensures var ys := SidebarYears(contests, selectedClass);
      && StrictlyDescending(ys)
      && (forall i, j :: 0 <= i < j < |ys| ==> ys[i] != ys[j])
      && (forall y :: y in ys <==> exists c :: c in contests && c.classLevel == selectedClass && c.year == y)
  {
    var ofClass := Filter(contests, ClassIs(selectedClass));
    FilterMembers(contests, ClassIs(selectedClass));
    forall y ensures y in Buckets(contests, selectedClass).Keys <==> exists c :: c in contests && c.classLevel == selectedClass && c.year == y {
      if exists c :: c in contests && c.classLevel == selectedClass && c.year == y {
        var c :| c in contests && c.classLevel == selectedClass && c.year == y;
        assert c in ofClass;
      }
    }
  }

  // ----- The default year -----

  /** The year after the default-year effect: when there are contests, a class
      is selected and no year is, the class's newest year (if it has any). */
  function DefaultYear(contests: seq<ContestRead>, selectedClass: int, selectedYear: Option<int>): (r: Option<int>)
    ensures Truthy(selectedYear) ==> r == selectedYear
    ensures |contests| > 0 && selectedClass != 0 && !Truthy(selectedYear)
            && (exists c :: c in contests && c.classLevel == selectedClass)
            ==> YearsOf(Filter(contests, ClassIs(selectedClass))) != {}
                && r == Some(Max(YearsOf(Filter(contests, ClassIs(selectedClass)))))
    ensures (|contests| == 0 || selectedClass == 0 || forall c :: c in contests ==> c.classLevel != selectedClass)
            ==> r == selectedYear
  {
    FilterMembers(contests, ClassIs(selectedClass));
    if |contests| > 0 && selectedClass != 0 then
      var years := Descending(YearsOf(Filter(contests, ClassIs(selectedClass))));
      if |years| > 0 && !Truthy(selectedYear) then Some(years[0]) else selectedYear
    else selectedYear
  }

  /** The default year is the first entry of the sidebar. */
  lemma DefaultYearHeadsSidebar(contests: seq<ContestRead>, selectedClass: int, selectedYear: Option<int>)
    requires |contests| > 0 && selectedClass != 0 && !Truthy(selectedYear)
    requires exists c :: c in contests && c.classLevel == selectedClass
    ensures var ys := SidebarYears(contests, selectedClass);
      ys != [] && DefaultYear(contests, selectedClass, selectedYear) == Some(ys[0])
  {
    var c :| c in contests && c.classLevel == selectedClass;
    FilterMembers(contests, ClassIs(selectedClass));
    assert c in Filter(contests, ClassIs(selectedClass));
    assert Buckets(contests, selectedClass).Keys == YearsOf(Filter(contests, ClassIs(selectedClass)));
  }

  // ----- Text on the page -----

  const TitlePrefix := "PREHSG "
  const TitleClass := " Class "

  /** A card's title: `PREHSG ${year} Class ${class_level}`. */
  function CardTitle(c: ContestRead): string {
    TitlePrefix + IntToString(c.year) + TitleClass + IntToString(c.classLevel)
  }

  /** The title names the year and class it was made from: both read back, so
      two cards share a title exactly when they share year and class. */
  lemma CardTitleReadsBack(a: ContestRead, b: ContestRead)
    ensures ParseInt(CardTitle(a)[|TitlePrefix|..]) == Some(a.year)
    ensures ParseInt(CardTitle(a)[|TitlePrefix| + |IntToString(a.year)| + |TitleClass|..]) == Some(a.classLevel)
    ensures CardTitle(a) == CardTitle(b) <==> a.year == b.year && a.classLevel == b.classLevel
  {
    TitleFields(a);
    if CardTitle(a) == CardTitle(b) {
      TitleFields(b);
      var ta := CardTitle(a);
      assert a.year == b.year;
      var k := |TitlePrefix| + |IntToString(a.year)| + |TitleClass|;
      assert IntToString(a.classLevel) == ta[k..];
      IntToStringInjective(a.classLevel, b.classLevel);
    }
  }

  lemma TitleFields(a: ContestRead)
    ensures ParseInt(CardTitle(a)[|TitlePrefix|..]) == Some(a.year)
    ensures CardTitle(a)[|TitlePrefix| + |IntToString(a.year)| + |TitleClass|..] == IntToString(a.classLevel)
    ensures ParseInt(CardTitle(a)[|TitlePrefix| + |IntToString(a.year)| + |TitleClass|..]) == Some(a.classLevel)
  {
    var t := CardTitle(a);
    assert t[|TitlePrefix|..] == IntToString(a.year) + (TitleClass + IntToString(a.classLevel));
    ParseIntAfterToString(a.year, TitleClass + IntToString(a.classLevel));
    ParseIntAfterToString(a.classLevel, "");
    assert IntToString(a.classLevel) + "" == IntToString(a.classLevel);
  }

  /** The count line: `${n} contest${n !== 1 ? 's' : ''} found`. */
  function CountLabel(n: nat): string {
    IntToString(n) + " contest" + (if n != 1 then "s" else "") + " found"
  }

  /** The count reads back from the label... */
  lemma CountLabelReadsBack(n: nat)
    ensures ParseInt(CountLabel(n)) == Some(n)
  {
    var tail := " contest" + (if n != 1 then "s" else "") + " found";
    assert CountLabel(n) == IntToString(n) + tail;
    ParseIntAfterToString(n, tail);
  }

  /** ...and the noun is plural unless the count is 1. */
  lemma CountLabelPlural(n: nat)
    ensures var l := CountLabel(n); |l| >= 7 && (l[|l| - 7..] == "s found" <==> n != 1)
  {
    CountLabelEnding(n);
    assert "t found"[0] != "s found"[0];
  }

  lemma CountLabelEnding(n: nat)
    ensures var l := CountLabel(n); |l| >= 7 && l[|l| - 7..] == if n != 1 then "s found" else "t found"
  {
    var ending := if n != 1 then "s found" else "t found";
    var front := IntToString(n) + (if n != 1 then " contest" else " contes");
    assert CountLabel(n) == front + ending;
    SuffixOfConcat(front, ending, 7);
  }

  lemma SuffixOfConcat(a: string, b: string, k: nat)
    requires k <= |b|
    ensures (a + b)[|a + b| - k..] == b[|b| - k..]
  {
  }

  /** The heading over the cards: `Class {selectedClass} - Year {selectedYear}`. */
  function Heading(selectedClass: int, year: int): string {
    "Class " + IntToString(selectedClass) + " - Year " + IntToString(year)
  }

  // ----- The main panel -----

  /** What the main area shows. */
  datatype MainPanel =
    | LoadingMessage
    | SelectYearPrompt
    | NoContestsMessage
    | CardGrid(heading: string, countLabel: string, cards: seq<ContestRead>)

  /** The main area: loading, then no year selected, then no matching contest,
      else the heading, the count and the cards ordered by pre number. */
  function MainContent(loading: bool, selectedClass: int, selectedYear: Option<int>, contests: seq<ContestRead>): (p: MainPanel)
    ensures p.LoadingMessage? <==> loading
    ensures p.SelectYearPrompt? <==> !loading && selectedYear.None?
    ensures p.NoContestsMessage? <==> (!loading && selectedYear.Some?
                                       && FilteredContests(contests, selectedClass, selectedYear) == [])
  {
    if loading then LoadingMessage
    else if selectedYear.None? then SelectYearPrompt
    else
      var shown := FilteredContests(contests, selectedClass, selectedYear);
      if |shown| == 0 then NoContestsMessage
      else CardGrid(Heading(selectedClass, selectedYear.value), CountLabel(|shown|), SortStable(PreAsc, shown))
  }

  /** "No contests" is shown exactly when no contest has the selected class and year. */
  lemma NoContestsSpec(loading: bool, selectedClass: int, selectedYear: Option<int>, contests: seq<ContestRead>)
    ensures MainContent(loading, selectedClass, selectedYear, contests).NoContestsMessage?
        <==> (!loading && selectedYear.Some?
              && forall c :: c in contests ==> !(c.classLevel == selectedClass && c.year == selectedYear.value))
  {
    var f := FilteredContests(contests, selectedClass, selectedYear);
    FilterMembers(contests, ClassAndYear(selectedClass, selectedYear));
    if f != [] {
      assert f[0] in f;
    }
  }

  /** The card grid: a heading and count for the selected class and year, and
      the matching contests, every one of them, ordered by pre number, those
      with equal pre numbers in input order. */
  lemma CardGridSpec(loading: bool, selectedClass: int, selectedYear: Option<int>, contests: seq<ContestRead>)
    requires MainContent(loading, selectedClass, selectedYear, contests).CardGrid?
    ensures var p := MainContent(loading, selectedClass, selectedYear, contests);
      var f := FilteredContests(contests, selectedClass, selectedYear);
      && selectedYear.Some? && p.cards != []
      && p.heading == Heading(selectedClass, selectedYear.value)
      && p.countLabel == CountLabel(|p.cards|)
      && Sorted(PreAsc, p.cards)
      && multiset(p.cards) == multiset(f)
      && (forall c :: c in p.cards ==> c.classLevel == selectedClass && c.year == selectedYear.value)
      && (forall q :: Filter(p.cards, PreIs(q)) == Filter(f, PreIs(q)))
  {
    var f := FilteredContests(contests, selectedClass, selectedYear);
    FilterMembers(contests, ClassAndYear(selectedClass, selectedYear));
    SameElements(f, SortStable(PreAsc, f));
    forall q ensures Filter(SortStable(PreAsc, f), PreIs(q)) == Filter(f, PreIs(q)) {
      SortStableKeepsPreGroups(f, q);
    }
  }

  lemma SameElements(a: seq<ContestRead>, b: seq<ContestRead>)
    requires multiset(a) == multiset(b)
    ensures forall c :: c in b <==> c in a
  {
    forall c ensures c in b <==> c in a {
      assert c in b <==> c in multiset(b);
      assert c in a <==> c in multiset(a);
    }
  }

  /** The in-place `.sort((a, b) => a.pre_number - b.pre_number)` of the
      filtered array, a stable sort. */
  method SortCards(a: array<ContestRead>)
    modifies a
    ensures a[..] == SortStable(PreAsc, old(a[..]))
    ensures Sorted(PreAsc, a[..]) && multiset(a[..]) == multiset(old(a[..]))
  {
    var sorted := SortStable(PreAsc, a[..]);
    forall i | 0 <= i < a.Length {
      a[i] := sorted[i];
    }
  }

  // ----- The page's state -----

  /** The page's state hooks. */
  class HomeView {
    var selectedClass: int
    var selectedYear: Option<int>
    var contests: seq<ContestRead>
    var loading: bool

    constructor ()
      ensures selectedClass == 9 && selectedYear == None && contests == [] && !loading
    {
      selectedClass := 9;
      selectedYear := None;
      contests := [];
      loading := false;
    }

    /** The effect run when `contests` or `selectedClass` change. */
    method ApplyDefaultYear()
      modifies this
      ensures selectedYear == DefaultYear(contests, selectedClass, old(selectedYear))
      ensures contests == old(contests) && selectedClass == old(selectedClass) && loading == old(loading)
    {
      if |contests| > 0 && selectedClass != 0 {
        var ofClass := Filter(contests, ClassIs(selectedClass));
        var years := Descending(YearsOf(ofClass));
        if |years| > 0 && !Truthy(selectedYear) {
          selectedYear := Some(years[0]);
        }
      }
    }

    /** `fetchContests`: one GET of the contests; `fetched` is the response
        body, or `None` when the request failed; the effect then runs on the
        new contests. */
    method FetchContests(fetched: Option<seq<ContestRead>>) returns (sent: seq<ApiRequest>)
      modifies this
      ensures sent == [Get(ContestsPath)]
      ensures !loading && selectedClass == old(selectedClass)
      ensures fetched.Some? ==> contests == fetched.value
                                && selectedYear == DefaultYear(fetched.value, selectedClass, old(selectedYear))
      ensures fetched.None? ==> contests == old(contests) && selectedYear == old(selectedYear)
    {
      loading := true;
      sent := [Get(ContestsPath)];
      if fetched.Some? {
        contests := fetched.value;
        ApplyDefaultYear();
      }
      loading := false;
    }

    /** A class button in the header; the effect runs only when the class changes. */
    method SelectClass(classLevel: int)
      modifies this
      ensures selectedClass == classLevel && contests == old(contests) && loading == old(loading)
      ensures classLevel != old(selectedClass) ==> selectedYear == DefaultYear(contests, classLevel, old(selectedYear))
      ensures classLevel == old(selectedClass) ==> selectedYear == old(selectedYear)
      ensures Truthy(old(selectedYear)) ==> selectedYear == old(selectedYear)
    {
      var changed := classLevel != selectedClass;
      selectedClass := classLevel;
      if changed {
        ApplyDefaultYear();
      }
    }

    /** A year button in the sidebar. */
    method SelectYear(year: int)
      modifies this
      ensures selectedYear == Some(year)
      ensures selectedClass == old(selectedClass) && contests == old(contests) && loading == old(loading)
    {
      selectedYear := Some(year);
    }

    /** The sidebar, shown while a (truthy) class is selected. */
    function Sidebar(): (r: Option<seq<int>>)
      reads this
      ensures r.Some? <==> selectedClass != 0
      ensures r.Some? ==> r.value == SidebarYears(contests, selectedClass)
    {
      if selectedClass != 0 then Some(SidebarYears(contests, selectedClass)) else None
    }
  }
}
