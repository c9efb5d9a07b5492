// The contest routes (backend/routers/contests.py) over a table of rows keyed
// by id. Reads need no token; create, update and delete first run the
// `verify_token` dependency, then validate the request body, then look up the id.
module ContestsRouter {
  import opened Results
  import opened Models
  import opened Listing
  import Auth
  import Numbers

  function NotFoundError(id: int): HttpError {
    HttpError(NotFound, "Contest with id " + Numbers.IntToString(id) + " not found")
  }

  const ClassRangeError := HttpError(BadRequest, "Class level must be between 9 and 12")

  /** The id SQLite gives a new row: one past the largest id, or 1 in an empty table. */
  function NextId(ids: set<int>): (id: int)
    ensures id !in ids
    ensures forall k :: k in ids ==> k < id
    ensures ids == {} ==> id == 1
    ensures (forall k :: k in ids ==> k >= 1) ==> id >= 1
  {
    if ids == {} then 1 else Max(ids) + 1
  }

  /** The rows a query selects, each as the response record it becomes. */
  function Matching(rows: map<int, ContestBase>, k: Criterion): (m: set<ContestRead>)
    ensures forall c :: c in m <==> c.id in rows && BaseOf(c) == rows[c.id] && Holds(k, c)
  {
    var m := set id | id in rows && Holds(k, WithId(id, rows[id])) :: WithId(id, rows[id]);
    assert forall c: ContestRead :: c.id in rows && BaseOf(c) == rows[c.id] ==> c == WithId(c.id, rows[c.id]);
    m
  }

  /** The rows whose ids are in `done`. */
  function Restrict(rows: map<int, ContestBase>, done: set<int>): (m: map<int, ContestBase>)
    ensures forall id :: id in m <==> id in rows && id in done
    ensures forall id :: id in m ==> m[id] == rows[id]
  {
    map id | id in rows && id in done :: rows[id]
  }

  /** Scanning one more row adds that row's record, if it matches, to what was selected. */
  lemma MatchingGrows(rows: map<int, ContestBase>, done: set<int>, id: int, k: Criterion)
    requires id in rows && id !in done
    ensures var c := WithId(id, rows[id]);
      multiset(Matching(Restrict(rows, done + {id}), k))
        == multiset(Matching(Restrict(rows, done), k)) + (if Holds(k, c) then multiset{c} else multiset{})
  {
    var c := WithId(id, rows[id]);
    var before := Matching(Restrict(rows, done), k);
    var after := Matching(Restrict(rows, done + {id}), k);
    assert c !in before;
    if Holds(k, c) {
      assert after == before + {c};
    } else {
      assert after == before;
    }
  }

  /** A selection holds the elements of the set it enumerates. */
  lemma SelectedMembers(found: seq<ContestRead>, m: set<ContestRead>)
    requires multiset(found) == multiset(m)
    ensures forall c :: c in found <==> c in m
  {
    forall c ensures c in found <==> c in m {
      assert c in found <==> c in multiset(found);
    }
  }

  /** One step of the scan: the selection so far plus the scanned row, if it matches. */
  lemma SelectStep(rows: map<int, ContestBase>, done: set<int>, id: int, k: Criterion, before: seq<ContestRead>, after: seq<ContestRead>)
    requires id in rows && id !in done
    requires multiset(before) == multiset(Matching(Restrict(rows, done), k))
    requires var c := WithId(id, rows[id]);
      multiset(after) == multiset(before) + (if Holds(k, c) then multiset{c} else multiset{})
    ensures multiset(after) == multiset(Matching(Restrict(rows, done + {id}), k))
  {
    MatchingGrows(rows, done, id, k);
  }

  /** Once every row is scanned, the restriction is the whole table. */
  lemma SelectDone(rows: map<int, ContestBase>, done: set<int>, k: Criterion)
    requires rows.Keys <= done
    ensures Matching(Restrict(rows, done), k) == Matching(rows, k)
  {
    assert Restrict(rows, done).Keys == rows.Keys;
    assert Restrict(rows, done) == rows;
  }

  // ----- setattr over the fields of an update -----

  /** One `(field, value)` entry of `contest_update.dict(...)`. */
  datatype Assignment =
    | SetClassLevel(classLevel: int)
    | SetYear(year: int)
    | SetPreNumber(preNumber: int)
    | SetContestUrl(contestUrl: string)
    | SetSolutionUrl(solutionUrl: string)

  function FieldOf(a: Assignment): Field {
    match a
    case SetClassLevel(_) => ClassLevelField
    case SetYear(_) => YearField
    case SetPreNumber(_) => PreNumberField
    case SetContestUrl(_) => ContestUrlField
    case SetSolutionUrl(_) => SolutionUrlField
  }

  /** The current value of field `f`, as the assignment that would set it. */
  function Get(b: ContestBase, f: Field): (a: Assignment)
    ensures FieldOf(a) == f
  {
    match f
    case ClassLevelField => SetClassLevel(b.classLevel)
    case YearField => SetYear(b.year)
    case PreNumberField => SetPreNumber(b.preNumber)
    case ContestUrlField => SetContestUrl(b.contestUrl)
    case SolutionUrlField => SetSolutionUrl(b.solutionUrl)
  }

  /** `setattr(row, field, value)`. */
  function SetAttr(b: ContestBase, a: Assignment): (r: ContestBase)
    ensures Get(r, FieldOf(a)) == a
    ensures forall f :: f != FieldOf(a) ==> Get(r, f) == Get(b, f)
  {
    match a
    case SetClassLevel(v) => b.(classLevel := v)
    case SetYear(v) => b.(year := v)
    case SetPreNumber(v) => b.(preNumber := v)
    case SetContestUrl(v) => b.(contestUrl := v)
    case SetSolutionUrl(v) => b.(solutionUrl := v)
  }

  /** The last assignment to field `f` in `assigns`, if any. */
  function LastFor(assigns: seq<Assignment>, f: Field): (r: Option<Assignment>)
    ensures r.Some? ==> r.value in assigns && FieldOf(r.value) == f
    ensures r.None? ==> forall a :: a in assigns ==> FieldOf(a) != f
  {
    if assigns == [] then None
    else if FieldOf(assigns[|assigns| - 1]) == f then Some(assigns[|assigns| - 1])
    else LastFor(assigns[..|assigns| - 1], f)
  }

  /** `contest_update.dict(exclude_unset=True)`: every field of `ContestUpdate` is
      required, so a validated update always carries all five. */
  function UpdateFields(u: ContestUpdate): (assigns: seq<Assignment>)
    ensures forall f :: LastFor(assigns, f) == Some(Get(u, f))
  {
    [SetClassLevel(u.classLevel), SetYear(u.year), SetPreNumber(u.preNumber),
     SetContestUrl(u.contestUrl), SetSolutionUrl(u.solutionUrl)]
  }

  /** Two records that agree on every field are the same record. */
  lemma FieldsDetermine(a: ContestBase, b: ContestBase)
    requires forall f :: Get(a, f) == Get(b, f)
    ensures a == b
  {
    assert Get(a, ClassLevelField) == Get(b, ClassLevelField);
    assert Get(a, YearField) == Get(b, YearField);
    assert Get(a, PreNumberField) == Get(b, PreNumberField);
    assert Get(a, ContestUrlField) == Get(b, ContestUrlField);
    assert Get(a, SolutionUrlField) == Get(b, SolutionUrlField);
  }

  /** The `for field, value in ...: setattr(...)` loop: each field ends with its
      last assigned value, and a field never assigned keeps its old value. */
  method ApplyAssignments(row: ContestBase, assigns: seq<Assignment>) returns (updated: ContestBase)
    ensures forall f :: Get(updated, f) == LastFor(assigns, f).GetOr(Get(row, f))
  {
    updated := row;
    var i := 0;
    while i < |assigns|
      invariant 0 <= i <= |assigns|
      invariant forall f :: Get(updated, f) == LastFor(assigns[..i], f).GetOr(Get(row, f))
    {
      assert assigns[..i + 1][..i] == assigns[..i];
      updated := SetAttr(updated, assigns[i]);
      i := i + 1;
    }
    assert assigns[..i] == assigns;
  }

  /** The `contests` table. */
  class ContestTable {
    var rows: map<int, ContestBase>

    /** Every stored row was accepted by request validation and has an id the database assigned. */
    ghost predicate Valid()
      reads this
    {
      forall id :: id in rows ==> id >= 1 && ValidBase(rows[id])
    }

    constructor ()
      ensures Valid() && rows == map[]
    {
      rows := map[];
    }

    /** `session.exec(select(Contest).where(k).order_by(o)).all()`: the matching rows,
        each once, in order `o`. Rows that tie under `o` may come in any order. */
    method Select(k: Criterion, o: Order) returns (r: seq<ContestRead>)
      ensures Sorted(o, r)
      ensures multiset(r) == multiset(Matching(rows, k))
    {
      r := [];
      var remaining := rows.Keys;
      ghost var done: set<int> := {};
      while remaining != {}
        invariant remaining == rows.Keys - done
        invariant Sorted(o, r)
        invariant multiset(r) == multiset(Matching(Restrict(rows, done), k))
        decreases remaining
      {
        NonEmptyHasElement(remaining);
        var id :| id in remaining;
        var c := WithId(id, rows[id]);
        ghost var before := r;
        if Holds(k, c) {
          r := Insert(o, c, r);
        }
        SelectStep(rows, done, id, k, before, r);
        remaining := remaining - {id};
        done := done + {id};
      }
      SelectDone(rows, done, k);
    }

    /** `get_all_contests`: every row, newest year first, then by `pre_number`;
        a 500 when a stored row breaks a bound of `ContestRead`. */
    method GetAllContests() returns (r: Result<seq<ContestRead>>)
      ensures r.Ok? <==> forall c :: c in Matching(rows, Any) ==> ValidBase(BaseOf(c))
      ensures r.Err? ==> r.error == ResponseValidationFailed
      ensures r.Ok? ==> Sorted(YearDescPreAsc, r.value)
      ensures r.Ok? ==> multiset(r.value) == multiset(Matching(rows, Any))
      ensures Valid() ==> r.Ok?
    {
      var found := Select(Any, YearDescPreAsc);
      r := ToReadList(found);
      SelectedMembers(found, Matching(rows, Any));
      ValidRowsRead(Any);
    }

    /** `get_contest`: 404 for a missing id, else the row, which must pass response validation. */
    method GetContest(id: int) returns (r: Result<ContestRead>)
      ensures r.Ok? <==> id in rows && ValidBase(rows[id])
      ensures r.Ok? ==> r.value == WithId(id, rows[id])
      ensures id !in rows ==> r == Err(NotFoundError(id))
      ensures id in rows && !ValidBase(rows[id]) ==> r == Err(ResponseValidationFailed)
      ensures Valid() ==> (r.Ok? <==> id in rows)
    {
      if id !in rows {
        return Err(NotFoundError(id));
      }
      return ToRead(Contest(Some(id), rows[id]));
    }

    /** `get_contests_by_class`: 400 outside 9..12, else that class, newest year first. */
    method GetContestsByClass(classLevel: int) returns (r: Result<seq<ContestRead>>)
      ensures classLevel < MinClassLevel || classLevel > MaxClassLevel ==> r == Err(ClassRangeError)
      ensures r.Ok? <==> MinClassLevel <= classLevel <= MaxClassLevel
                         && forall c :: c in Matching(rows, ClassIs(classLevel)) ==> ValidBase(BaseOf(c))
      ensures MinClassLevel <= classLevel <= MaxClassLevel && r.Err? ==> r.error == ResponseValidationFailed
      ensures r.Ok? ==> Sorted(YearDescPreAsc, r.value)
      ensures r.Ok? ==> multiset(r.value) == multiset(Matching(rows, ClassIs(classLevel)))
      ensures Valid() ==> (r.Ok? <==> MinClassLevel <= classLevel <= MaxClassLevel)
    {
      if classLevel < 9 || classLevel > 12 {
        return Err(ClassRangeError);
      }
      var found := Select(ClassIs(classLevel), YearDescPreAsc);
      r := ToReadList(found);
      SelectedMembers(found, Matching(rows, ClassIs(classLevel)));
      ValidRowsRead(ClassIs(classLevel));
    }

    /** `get_contests_by_year`: that year's rows by class, then by `pre_number`. */
    method GetContestsByYear(year: int) returns (r: Result<seq<ContestRead>>)
      ensures r.Ok? <==> forall c :: c in Matching(rows, YearIs(year)) ==> ValidBase(BaseOf(c))
      ensures r.Err? ==> r.error == ResponseValidationFailed
      ensures r.Ok? ==> Sorted(ClassAscPreAsc, r.value)
      ensures r.Ok? ==> multiset(r.value) == multiset(Matching(rows, YearIs(year)))
      ensures Valid() ==> r.Ok?
    {
      var found := Select(YearIs(year), ClassAscPreAsc);
      r := ToReadList(found);
      SelectedMembers(found, Matching(rows, YearIs(year)));
      ValidRowsRead(YearIs(year));
    }

    /** In a valid table every selected record passes response validation. */
    lemma ValidRowsRead(k: Criterion)
      ensures Valid() ==> forall c :: c in Matching(rows, k) ==> ValidBase(BaseOf(c))
    {
    }

    /** `create_contest`: token, then body validation, then a new row under a fresh id. */
    method CreateContest(validTokens: set<string>, authorization: Option<string>, body: ContestCreate)
      returns (r: Result<ContestRead>)
      modifies this
      ensures old(Valid()) ==> Valid()
      ensures Auth.Verify(validTokens, authorization).Err? ==>
                r == Err(Auth.Verify(validTokens, authorization).error) && rows == old(rows)
      ensures Auth.Verify(validTokens, authorization).Ok? && !ValidBase(body) ==>
                r.Err? && r.error.status == Unprocessable && rows == old(rows)
      ensures r.Ok? <==> Auth.Verify(validTokens, authorization).Ok? && ValidBase(body)
      ensures r.Ok? ==> r.value.id !in old(rows) && BaseOf(r.value) == body
      ensures r.Ok? ==> rows == old(rows)[r.value.id := body]
    {
      var auth := Auth.Verify(validTokens, authorization);
      if auth.Err? {
        return Err(auth.error);
      }
      var checked := ValidateBody(body);
      if checked.Err? {
        return Err(checked.error);
      }
      var id := NextId(rows.Keys);
      rows := rows[id := body];
      return Ok(WithId(id, body));
    }

    /** `update_contest`: token, body validation, 404 for a missing id, then setattr
        for each field of the update; the id and every other row stay as they were. */
    method UpdateContest(validTokens: set<string>, authorization: Option<string>, id: int, update: ContestUpdate)
      returns (r: Result<ContestRead>)
      modifies this
      ensures old(Valid()) ==> Valid()
      ensures Auth.Verify(validTokens, authorization).Err? ==>
                r == Err(Auth.Verify(validTokens, authorization).error) && rows == old(rows)
      ensures Auth.Verify(validTokens, authorization).Ok? && !ValidBase(update) ==>
                r.Err? && r.error.status == Unprocessable && rows == old(rows)
      ensures Auth.Verify(validTokens, authorization).Ok? && ValidBase(update) && id !in old(rows) ==>
                r == Err(NotFoundError(id)) && rows == old(rows)
      ensures r.Ok? <==> Auth.Verify(validTokens, authorization).Ok? && ValidBase(update) && id in old(rows)
      ensures r.Ok? ==> r.value == WithId(id, update) && rows == old(rows)[id := update]
    {
      var auth := Auth.Verify(validTokens, authorization);
      if auth.Err? {
        return Err(auth.error);
      }
      var checked := ValidateBody(update);
      if checked.Err? {
        return Err(checked.error);
      }
      if id !in rows {
        return Err(NotFoundError(id));
      }
      var updated := ApplyAssignments(rows[id], UpdateFields(update));
      FieldsDetermine(updated, update);
      rows := rows[id := updated];
      return Ok(WithId(id, updated));
    }

    /** `delete_contest`: token, 404 for a missing id, else exactly that row goes. */
    method DeleteContest(validTokens: set<string>, authorization: Option<string>, id: int)
      returns (r: Result<()>)
      modifies this
      ensures old(Valid()) ==> Valid()
      ensures Auth.Verify(validTokens, authorization).Err? ==>
                r == Err(Auth.Verify(validTokens, authorization).error) && rows == old(rows)
      ensures Auth.Verify(validTokens, authorization).Ok? && id !in old(rows) ==>
                r == Err(NotFoundError(id)) && rows == old(rows)
      ensures r.Ok? <==> Auth.Verify(validTokens, authorization).Ok? && id in old(rows)
      ensures r.Ok? ==> rows == old(rows) - {id}
    {
      var auth := Auth.Verify(validTokens, authorization);
      if auth.Err? {
        return Err(auth.error);
      }
      if id !in rows {
        return Err(NotFoundError(id));
      }
      rows := rows - {id};
      return Ok(());
    }
  }
}
