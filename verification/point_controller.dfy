/**
 * The request handlers for species distribution points
 * (server/src/controllers/point.controller.ts): each one coerces its path and
 * body parameters, validates them in a fixed order, issues at most one
 * parameterised query, and maps the query's outcome to a status code and a
 * JSON body. The store is not modelled: the outcome of the query is an input,
 * and each handler returns the query it would issue beside the response.
 */
module PointController {
  import opened Maybe

  /**
   * A JavaScript number as `Number(...)` produces it: a finite value, or one
   * of the three IEEE-754 specials. Finite values are kept as reals.
   */
  datatype Num = Finite(value: real) | NaN | PosInf | NegInf

  /** A row of the points table (`IPoint`). */
  datatype PointRow = PointRow(id: int, name: string, lat: real, lng: real)

  /**
   * What the store call gave back: it threw, or it returned rows together
   * with `rowCount`, which the driver may leave null (None).
   */
  datatype StoreOutcome = Threw | Returned(rows: seq<PointRow>, rowCount: Option<nat>)

  /** A value bound to a `$n` placeholder. */
  datatype Param = Text(text: string) | Number(num: Num)

  /**
   * A piece of a statement's template literal: SQL text, the interpolated
   * table name (`${table}`), or the placeholder `$n`.
   */
  datatype SqlPart = Sql(text: string) | Ident(name: string) | Placeholder(n: nat)

  /** A named, parameterised statement: placeholder `$i` is bound to `values[i - 1]`. */
  datatype Query = Query(name: string, sql: seq<SqlPart>, values: seq<Param>)

  /** An HTTP response: status, message, and the optional `point` and `points` members of the JSON body. */
  datatype Response = Response(status: nat, message: string, point: Option<PointRow>, points: Option<seq<PointRow>>)

  /** What a handler does: the query it issues, if any, and the response it sends. */
  datatype Handled = Handled(query: Option<Query>, response: Response)

  const InvalidLatLng: string := "Invalid lat/lng"
  const InvalidId: string := "Invalid id"
  const PointNotFound: string := "Point not found"
  const InternalServerError: string := "Internal Server Error"
  const PointsListed: string := "Get all species distribution points successfully"
  const PointCreated: string := "Create species distribution points successfully"
  const PointUpdated: string := "Update species distribution points successfully"
  const PointDeleted: string := "Delete species distribution points successfully"

  // ---------------------------------------------------------------------
  // JavaScript number semantics used by the validation

  /** `Number(req.body?.lat)`: an absent field is `undefined`, which becomes NaN. */
  function Coerce(field: Option<Num>): (x: Num)
    ensures field.None? ==> x.NaN?
    ensures field.Some? ==> x == field.value
  {
    match field
    case None => NaN
    case Some(x) => x
  }

  /** `Number.isFinite(x)`. */
  predicate IsFinite(x: Num) {
    x.Finite?
  }

  /**
   * The integer `k` as a real number. It has no meaning beyond `k as real`:
   * it gives the solver a term to match in `IsInteger`'s `exists`, which a
   * bare conversion does not offer.
   */
  function IntAsReal(k: int): real {
    k as real
  }

  /** `Number.isInteger(x)`: finite and without a fractional part. */
  function IsInteger(x: Num): (ok: bool)
    ensures ok <==> x.Finite? && exists k: int :: x.value == IntAsReal(k)
  {
    match x
    case Finite(v) =>
      assert v == IntAsReal(v.Floor) ==> exists k: int :: v == IntAsReal(k);
      v == IntAsReal(v.Floor)
    case _ => false
  }

  /** `x >= b` for a finite bound `b`: false for NaN, true for +Infinity. */
  predicate AtLeast(x: Num, b: real) {
    match x
    case Finite(v) => v >= b
    case PosInf => true
    case NegInf => false
    case NaN => false
  }

  /** `x <= b` for a finite bound `b`: false for NaN, true for -Infinity. */
  predicate AtMost(x: Num, b: real) {
    match x
    case Finite(v) => v <= b
    case PosInf => false
    case NegInf => true
    case NaN => false
  }

  /**
   * `isValidLatLng`: both values finite, the latitude within [-90, 90] and the
   * longitude within [-180, 180], every bound inclusive.
   */
  function IsValidLatLng(lat: Num, lng: Num): (ok: bool)
    ensures ok <==> lat.Finite? && lng.Finite?
                    && -90.0 <= lat.value <= 90.0
                    && -180.0 <= lng.value <= 180.0
  {
    IsFinite(lat) && IsFinite(lng)
    && AtLeast(lat, -90.0) && AtMost(lat, 90.0)
    && AtLeast(lng, -180.0) && AtMost(lng, 180.0)
  }

  // ---------------------------------------------------------------------
  // The statements the handlers issue; `table` is the text the points
  // table's configured name interpolates to.

  /**
   * Every placeholder is bound and every bound value is used: the
   * placeholders of the template are numbered within `1..|values|`, and each
   * of those numbers occurs.
   */
  predicate BindsEveryPlaceholder(q: Query) {
    && (forall i :: 0 <= i < |q.sql| && q.sql[i].Placeholder? ==> 1 <= q.sql[i].n <= |q.values|)
    && (forall k :: 1 <= k <= |q.values| ==> exists i :: 0 <= i < |q.sql| && q.sql[i] == Placeholder(k))
  }

  /** `get-all-points`: the rows whose `name` is the species name, bound to `$1`. */
  function SelectByName(table: string, speciesName: string): (q: Query)
    ensures q.name == "get-all-points" && q.values == [Text(speciesName)]
    ensures |q.sql| >= 2 && q.sql[0] == Sql("SELECT * FROM ") && q.sql[1] == Ident(table)
    ensures |q.sql| == 4 && q.sql[2] == Sql(" WHERE name = ") && q.sql[3] == Placeholder(1)
    ensures BindsEveryPlaceholder(q)
  {
    var q := Query("get-all-points",
                   [Sql("SELECT * FROM "), Ident(table), Sql(" WHERE name = "), Placeholder(1)],
                   [Text(speciesName)]);
    assert q.sql[3] == Placeholder(1);
    q
  }

  /** `create-points`: an insert binding name, latitude and longitude to `$1..$3`. */
  function InsertPoint(table: string, speciesName: string, lat: Num, lng: Num): (q: Query)
    ensures q.name == "create-points" && q.values == [Text(speciesName), Number(lat), Number(lng)]
    ensures |q.sql| >= 2 && q.sql[0] == Sql("INSERT INTO ") && q.sql[1] == Ident(table)
    ensures |q.sql| >= 8 && q.sql[2] == Sql(" (name, lat, lng) VALUES (")
    ensures q.sql[3] == Placeholder(1) && q.sql[4] == Sql(", ") && q.sql[5] == Placeholder(2)
    ensures q.sql[6] == Sql(", ") && q.sql[7] == Placeholder(3)
    ensures |q.sql| == 9 && q.sql[8] == Sql(") RETURNING *")
    ensures BindsEveryPlaceholder(q)
  {
    var q := Query("create-points",
                   [Sql("INSERT INTO "), Ident(table), Sql(" (name, lat, lng) VALUES ("),
                    Placeholder(1), Sql(", "), Placeholder(2), Sql(", "), Placeholder(3), Sql(") RETURNING *")],
                   [Text(speciesName), Number(lat), Number(lng)]);
    assert q.sql[3] == Placeholder(1) && q.sql[5] == Placeholder(2) && q.sql[7] == Placeholder(3);
    q
  }

  /** `update-points`: sets `lat = $1` and `lng = $2` on the row with `id = $3`. */
  function UpdateById(table: string, lat: Num, lng: Num, id: Num): (q: Query)
    ensures q.name == "update-points" && q.values == [Number(lat), Number(lng), Number(id)]
    ensures |q.sql| >= 2 && q.sql[0] == Sql("UPDATE ") && q.sql[1] == Ident(table)
    ensures |q.sql| >= 8
    ensures q.sql[2] == Sql(" SET lat = ") && q.sql[3] == Placeholder(1)
    ensures q.sql[4] == Sql(", lng = ") && q.sql[5] == Placeholder(2)
    ensures q.sql[6] == Sql(" WHERE id = ") && q.sql[7] == Placeholder(3)
    ensures |q.sql| == 9 && q.sql[8] == Sql(" RETURNING *")
    ensures BindsEveryPlaceholder(q)
  {
    var q := Query("update-points",
                   [Sql("UPDATE "), Ident(table), Sql(" SET lat = "), Placeholder(1), Sql(", lng = "),
                    Placeholder(2), Sql(" WHERE id = "), Placeholder(3), Sql(" RETURNING *")],
                   [Number(lat), Number(lng), Number(id)]);
    assert q.sql[3] == Placeholder(1) && q.sql[5] == Placeholder(2) && q.sql[7] == Placeholder(3);
    q
  }

  /** `delete-points`: deletes the row with `id = $1`. */
  function DeleteById(table: string, id: Num): (q: Query)
    ensures q.name == "delete-points" && q.values == [Number(id)]
    ensures |q.sql| >= 2 && q.sql[0] == Sql("DELETE FROM ") && q.sql[1] == Ident(table)
    ensures |q.sql| == 4 && q.sql[2] == Sql(" WHERE id = ") && q.sql[3] == Placeholder(1)
    ensures BindsEveryPlaceholder(q)
  {
    var q := Query("delete-points", [Sql("DELETE FROM "), Ident(table), Sql(" WHERE id = "), Placeholder(1)],
                   [Number(id)]);
    assert q.sql[3] == Placeholder(1);
    q
  }

  // ---------------------------------------------------------------------
  // Responses

  function BadRequest(message: string): Response {
    Response(400, message, None, None)
  }

  function NotFound(): Response {
    Response(404, PointNotFound, None, None)
  }

  function ServerError(): Response {
    Response(500, InternalServerError, None, None)
  }

  /** `rows[0]`: the first returned row, or `undefined`, which the JSON body leaves out. */
  function FirstRow(rows: seq<PointRow>): (r: Option<PointRow>)
    ensures r.Some? <==> |rows| > 0
    ensures r.Some? ==> r.value == rows[0]
  {
    if |rows| > 0 then Some(rows[0]) else None
  }

  // ---------------------------------------------------------------------
  // The handlers

  /** `getPoints`: no validation; every row for the species, unless the query throws. */
  function GetPoints(table: string, speciesName: string, store: StoreOutcome): (h: Handled)
    ensures h.query == Some(SelectByName(table, speciesName))
    ensures h.response.status == 200 <==> store.Returned?
    ensures h.response.status == 200 ==> h.response == Response(200, PointsListed, None, Some(store.rows))
    ensures h.response.status != 200 ==> h.response == ServerError()
  {
    var q := SelectByName(table, speciesName);
    match store
    case Threw => Handled(Some(q), ServerError())
    case Returned(rows, _) =>
      Handled(Some(q), Response(200, PointsListed, None, Some(rows)))
  }

  /**
   * `createPoint`: invalid coordinates are refused with 400 before any
   * insert; otherwise the insert binds the species name, latitude and
   * longitude to `$1..$3`, and answers 201 with the first returned row.
   */
  function CreatePoint(table: string, speciesName: string, latField: Option<Num>, lngField: Option<Num>,
                       store: StoreOutcome): (h: Handled)
    ensures var lat, lng := Coerce(latField), Coerce(lngField);
            h.query.Some? <==> IsValidLatLng(lat, lng)
    ensures h.query.Some? ==> h.query.value == InsertPoint(table, speciesName, Coerce(latField), Coerce(lngField))
    ensures h.response.status == 400 <==> h.query.None?
    ensures h.response.status == 400 ==> h.response == BadRequest(InvalidLatLng)
    ensures h.response.status == 500 <==> h.query.Some? && store.Threw?
    ensures h.response.status == 500 ==> h.response == ServerError()
    ensures h.response.status == 201 <==> h.query.Some? && store.Returned?
    ensures h.response.status == 201 ==> h.response == Response(201, PointCreated, FirstRow(store.rows), None)
  {
    var lat, lng := Coerce(latField), Coerce(lngField);
    if !IsValidLatLng(lat, lng) then
      Handled(None, BadRequest(InvalidLatLng))
    else
      var q := InsertPoint(table, speciesName, lat, lng);
      match store
      case Threw => Handled(Some(q), ServerError())
      case Returned(rows, _) =>
        Handled(Some(q), Response(201, PointCreated, FirstRow(rows), None))
  }

  /**
   * `updatePoint`: the id is checked before the coordinates; a valid request
   * binds latitude, longitude and id to `$1..$3`; a row count of 0 means the
   * point does not exist.
   */
  function UpdatePoint(table: string, id: Num, latField: Option<Num>, lngField: Option<Num>,
                       store: StoreOutcome): (h: Handled)
    ensures !IsInteger(id) ==> h == Handled(None, BadRequest(InvalidId))
    ensures IsInteger(id) && !IsValidLatLng(Coerce(latField), Coerce(lngField))
            ==> h == Handled(None, BadRequest(InvalidLatLng))
    ensures var lat, lng := Coerce(latField), Coerce(lngField);
            h.query.Some? <==> IsInteger(id) && IsValidLatLng(lat, lng)
    ensures h.query.Some? ==> h.query.value == UpdateById(table, Coerce(latField), Coerce(lngField), id)
    ensures h.response.status == 500 <==> h.query.Some? && store.Threw?
    ensures h.response.status == 500 ==> h.response == ServerError()
    ensures h.response.status == 404 <==> h.query.Some? && store.Returned? && store.rowCount == Some(0)
    ensures h.response.status == 404 ==> h.response == NotFound()
    ensures h.response.status == 200 <==> h.query.Some? && store.Returned? && store.rowCount != Some(0)
    ensures h.response.status == 200 ==> h.response == Response(200, PointUpdated, FirstRow(store.rows), None)
  {
    var lat, lng := Coerce(latField), Coerce(lngField);
    if !IsInteger(id) then
      Handled(None, BadRequest(InvalidId))
    else if !IsValidLatLng(lat, lng) then
      Handled(None, BadRequest(InvalidLatLng))
    else
      var q := UpdateById(table, lat, lng, id);
      match store
      case Threw => Handled(Some(q), ServerError())
      case Returned(rows, rowCount) =>
        if rowCount == Some(0) then Handled(Some(q), NotFound())
        else Handled(Some(q), Response(200, PointUpdated, FirstRow(rows), None))
  }

  /**
   * `deletePoint`: a non-integer id is refused with 400 before any delete; a
   * row count of 0 means the point does not exist; success answers 200 with
   * a message and no point.
   */
  function DeletePoint(table: string, id: Num, store: StoreOutcome): (h: Handled)
    ensures h.query.Some? <==> IsInteger(id)
    ensures h.query.Some? ==> h.query.value == DeleteById(table, id)
    ensures h.response.status == 400 <==> !IsInteger(id)
    ensures h.response.status == 400 ==> h.response == BadRequest(InvalidId)
    ensures h.response.status == 500 <==> IsInteger(id) && store.Threw?
    ensures h.response.status == 500 ==> h.response == ServerError()
    ensures h.response.status == 404 <==> IsInteger(id) && store.Returned? && store.rowCount == Some(0)
    ensures h.response.status == 404 ==> h.response == NotFound()
    ensures h.response.status == 200 <==> IsInteger(id) && store.Returned? && store.rowCount != Some(0)
    ensures h.response.status == 200 ==> h.response == Response(200, PointDeleted, None, None)
  {
    if !IsInteger(id) then
      Handled(None, BadRequest(InvalidId))
    else
      var q := DeleteById(table, id);
      match store
      case Threw => Handled(Some(q), ServerError())
      case Returned(_, rowCount) =>
        if rowCount == Some(0) then Handled(Some(q), NotFound())
        else Handled(Some(q), Response(200, PointDeleted, None, None))
  }

  // ---------------------------------------------------------------------
  // Properties across the handlers

  /**
   * A missing, NaN or infinite coordinate is always refused: `createPoint`
   * answers 400 "Invalid lat/lng" and `updatePoint` answers 400 (on the id
   * or on the coordinates), neither issuing a query.
   */
  lemma NonFiniteCoordinateRefused(table: string, speciesName: string, id: Num,
                                   latField: Option<Num>, lngField: Option<Num>, store: StoreOutcome)
    requires !Coerce(latField).Finite? || !Coerce(lngField).Finite?
    ensures CreatePoint(table, speciesName, latField, lngField, store)
            == Handled(None, BadRequest(InvalidLatLng))
    ensures var h := UpdatePoint(table, id, latField, lngField, store);
            h.query.None? && h.response.status == 400
  {
  }

  /** Whatever the store would have done, a refused request gets the same answer. */
  lemma RefusalIndependentOfStore(table: string, speciesName: string, id: Num,
                                  latField: Option<Num>, lngField: Option<Num>,
                                  s1: StoreOutcome, s2: StoreOutcome)
    ensures CreatePoint(table, speciesName, latField, lngField, s1).query.None?
            ==> CreatePoint(table, speciesName, latField, lngField, s1)
                == CreatePoint(table, speciesName, latField, lngField, s2)
    ensures UpdatePoint(table, id, latField, lngField, s1).query.None?
            ==> UpdatePoint(table, id, latField, lngField, s1) == UpdatePoint(table, id, latField, lngField, s2)
    ensures DeletePoint(table, id, s1).query.None? ==> DeletePoint(table, id, s1) == DeletePoint(table, id, s2)
  {
  }

  /** A thrown store error always gives 500 "Internal Server Error" with nothing else in the body. */
  lemma StoreErrorRevealsNothing(table: string, speciesName: string, id: Num,
                                 latField: Option<Num>, lngField: Option<Num>)
    ensures GetPoints(table, speciesName, Threw).response == ServerError()
    ensures var h := CreatePoint(table, speciesName, latField, lngField, Threw);
            h.response.status == 400 || h.response == ServerError()
    ensures var h := UpdatePoint(table, id, latField, lngField, Threw);
            h.response.status == 400 || h.response == ServerError()
    ensures var h := DeletePoint(table, id, Threw);
            h.response.status == 400 || h.response == ServerError()
    ensures ServerError().point == None && ServerError().points == None
  {
  }

  /** A latitude of 91 for species 7 is refused before any insert. */
  lemma LatitudeOutOfRangeScenario(table: string, row: PointRow)
    ensures CreatePoint(table, "7", Some(Finite(91.0)), Some(Finite(0.0)), Returned([row], Some(1)))
            == Handled(None, BadRequest(InvalidLatLng))
  {
  }

  /** (45, -120) for species 7 is inserted and answered 201 with the new row. */
  lemma CreateScenario(table: string, row: PointRow)
    ensures var h := CreatePoint(table, "7", Some(Finite(45.0)), Some(Finite(-120.0)), Returned([row], Some(1)));
            h.query == Some(InsertPoint(table, "7", Finite(45.0), Finite(-120.0)))
            && h.response.status == 201 && h.response.point == Some(row)
  {
  }

  /** Updating point 3 when the store changes no row is answered 404. */
  lemma MissingPointScenario(table: string)
    ensures var h := UpdatePoint(table, Finite(3.0), Some(Finite(10.0)), Some(Finite(10.0)), Returned([], Some(0)));
            h.query.Some? && h.response == NotFound()
  {
  }
}
