// The contest record and its field constraints (backend/models.py). The
// frontend's `Contest` interface has the same shape as `ContestRead`.
module Models {
  import opened Results

  /** The five fields every contest carries, as `ContestBase` declares them. */
  datatype ContestBase = ContestBase(
    classLevel: int,
    year: int,
    preNumber: int,
    contestUrl: string,
    solutionUrl: string)

  /** Request bodies for create and update add nothing to the base. */
  type ContestCreate = ContestBase
  type ContestUpdate = ContestBase

  /** A table row: its id is absent until the database assigns one. */
  datatype Contest = Contest(id: Option<int>, fields: ContestBase)

  /** The API's response shape, and the frontend's record: the id is a required integer. */
  datatype ContestRead = ContestRead(
    id: int,
    classLevel: int,
    year: int,
    preNumber: int,
    contestUrl: string,
    solutionUrl: string)

  const MinClassLevel := 9
  const MaxClassLevel := 12
  const MinYear := 2000
  const MaxYear := 2100
  const MinPreNumber := 1
  // The field's description text says 1-5; the enforced bound is 3.
  const MaxPreNumber := 3

  datatype Field = ClassLevelField | YearField | PreNumberField | ContestUrlField | SolutionUrlField

  const AllFields := [ClassLevelField, YearField, PreNumberField, ContestUrlField, SolutionUrlField]

  lemma AllFieldsListed()
    ensures forall f :: f in AllFields
  {
    forall f ensures f in AllFields {
      assert AllFields[Rank(f)] == f;
    }
  }

  predicate ClassLevelOk(classLevel: int) {
    MinClassLevel <= classLevel <= MaxClassLevel
  }

  predicate YearOk(year: int) {
    MinYear <= year <= MaxYear
  }

  predicate PreNumberOk(preNumber: int) {
    MinPreNumber <= preNumber <= MaxPreNumber
  }

  /** The constraint `Field(...)` puts on one field; the URLs are required strings with no format check. */
  predicate FieldOk(b: ContestBase, f: Field) {
    match f
    case ClassLevelField => ClassLevelOk(b.classLevel)
    case YearField => YearOk(b.year)
    case PreNumberField => PreNumberOk(b.preNumber)
    case ContestUrlField => true
    case SolutionUrlField => true
  }

  /** Every field within its bounds. */
  predicate ValidBase(b: ContestBase) {
    ClassLevelOk(b.classLevel) && YearOk(b.year) && PreNumberOk(b.preNumber)
  }

  /** A field's place in the declaration of `ContestBase`. */
  function Rank(f: Field): (n: nat)
    ensures n < |AllFields| && AllFields[n] == f
  {
    match f
    case ClassLevelField => 0
    case YearField => 1
    case PreNumberField => 2
    case ContestUrlField => 3
    case SolutionUrlField => 4
  }

  predicate InDeclarationOrder(fs: seq<Field>) {
    forall i, j :: 0 <= i < j < |fs| ==> Rank(fs[i]) < Rank(fs[j])
  }

  /** The fields that fail validation, in declaration order, as the validator reports them. */
  function Violations(b: ContestBase): (r: seq<Field>)
    ensures forall f :: f in r <==> !FieldOk(b, f)
    ensures r == [] <==> ValidBase(b)
    ensures InDeclarationOrder(r)
  {
    AllFieldsListed();
    var r := FilterFailing(b, AllFields);
    FilterFailingOrdered(b, AllFields);
    assert r != [] ==> !FieldOk(b, r[0]);
    assert !ValidBase(b) ==> !FieldOk(b, ClassLevelField) || !FieldOk(b, YearField) || !FieldOk(b, PreNumberField);
    r
  }

  function FilterFailing(b: ContestBase, fs: seq<Field>): (r: seq<Field>)
    ensures forall f :: f in r <==> f in fs && !FieldOk(b, f)
  {
    if fs == [] then []
    else (if FieldOk(b, fs[0]) then [] else [fs[0]]) + FilterFailing(b, fs[1..])
  }

  lemma {:induction false} FilterFailingOrdered(b: ContestBase, fs: seq<Field>)
    requires InDeclarationOrder(fs)
    ensures InDeclarationOrder(FilterFailing(b, fs))
  {
    if fs != [] {
      var rest := FilterFailing(b, fs[1..]);
      FilterFailingOrdered(b, fs[1..]);
      if !FieldOk(b, fs[0]) {
        RanksAfterFirst(fs);
        OrderedCons(fs[0], rest);
      }
    }
  }

  lemma RanksAfterFirst(fs: seq<Field>)
    requires InDeclarationOrder(fs) && fs != []
    ensures forall f :: f in fs[1..] ==> Rank(fs[0]) < Rank(f)
  {
    forall f | f in fs[1..] ensures Rank(fs[0]) < Rank(f) {
      var k :| 0 <= k < |fs[1..]| && fs[1..][k] == f;
      assert fs[k + 1] == f;
    }
  }

  lemma OrderedCons(x: Field, rest: seq<Field>)
    requires InDeclarationOrder(rest)
    requires forall f :: f in rest ==> Rank(x) < Rank(f)
    ensures InDeclarationOrder([x] + rest)
  {
    var r := [x] + rest;
    forall i, j | 0 <= i < j < |r| ensures Rank(r[i]) < Rank(r[j]) {
      if i == 0 {
        assert r[j] == rest[j - 1] && rest[j - 1] in rest;
      } else {
        assert r[i] == rest[i - 1] && r[j] == rest[j - 1];
      }
    }
  }

  /** Request-body validation: a body that breaks a constraint is refused with 422.
      FastAPI's list of errors in the body is not modelled, so the detail is left empty. */
  function ValidateBody(b: ContestBase): (r: Result<ContestBase>)
    ensures r.Ok? <==> ValidBase(b)
    ensures r.Ok? ==> r.value == b
    ensures r.Err? ==> r.error.status == Unprocessable
  {
    if Violations(b) == [] then Ok(b) else Err(HttpError(Unprocessable, ""))
  }

  function BaseOf(c: ContestRead): ContestBase {
    ContestBase(c.classLevel, c.year, c.preNumber, c.contestUrl, c.solutionUrl)
  }

  function WithId(id: int, b: ContestBase): (c: ContestRead)
    ensures c.id == id && BaseOf(c) == b
  {
    ContestRead(id, b.classLevel, b.year, b.preNumber, b.contestUrl, b.solutionUrl)
  }

  /** A response that fails `response_model` validation: FastAPI raises, and
      the server answers with a bare 500. */
  const ResponseValidationFailed := HttpError(500, "Internal Server Error")

  /** Serialising a table row as `ContestRead`, which inherits the field bounds:
      a row without an id, or with a field out of bounds, fails response validation.
      Rows the routes store always pass, but rows written without validation need not. */
  function ToRead(row: Contest): (r: Result<ContestRead>)
    ensures r.Ok? <==> row.id.Some? && ValidBase(row.fields)
    ensures r.Ok? ==> r.value.id == row.id.value && BaseOf(r.value) == row.fields
    ensures r.Err? ==> r.error == ResponseValidationFailed
  {
    match row.id
    case Some(id) => if ValidBase(row.fields) then Ok(WithId(id, row.fields)) else Err(ResponseValidationFailed)
    case None => Err(ResponseValidationFailed)
  }

  /** Serialising a list response as `List[ContestRead]`: every record is checked. */
  function ToReadList(cs: seq<ContestRead>): (r: Result<seq<ContestRead>>)
    ensures r.Ok? <==> forall c :: c in cs ==> ValidBase(BaseOf(c))
    ensures r.Ok? ==> r.value == cs
    ensures r.Err? ==> r.error == ResponseValidationFailed
  {
    if cs == [] then Ok([])
    else
      match (ToRead(Contest(Some(cs[0].id), BaseOf(cs[0]))), ToReadList(cs[1..]))
      case (Ok(c), Ok(rest)) =>
        assert cs == [cs[0]] + cs[1..];
        Ok([c] + rest)
      case _ =>
        assert cs[0] in cs;
        Err(ResponseValidationFailed)
  }
}
