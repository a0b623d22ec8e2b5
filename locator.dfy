/**
 The nearest-location selection of the service locator's `/nearest` handler.

 The handler walks the fetched records once, in input order.  For each record
 it converts the `LAT` and `LON` fields to numbers (a missing field reads as 0,
 a conversion that raises skips the record), measures the great-circle distance
 from the caller's point, and keeps the record with the strictly smallest
 distance seen so far.  At the end it answers "No valid UNIT location found"
 when the kept record is falsy (none kept, or an empty mapping), and otherwise
 the kept record's `UNIT_NM`, `UNIT_ADDR` and distance.

 The floating-point machinery is given as parameters: the haversine distance
 and the conversion of decoded numbers and of text to a float.
 */
module ServiceLocator {

  datatype Option<T> = None | Some(value: T)

  /** A value decoded from the data source's JSON payload. */
  datatype Json =
    | Null
    | Bool(b: bool)
    | Number(n: real)
    | Text(s: string)
    | Array(items: seq<Json>)
    | Object(fields: map<string, Json>)

  /**
   The computations the model does not spell out: `floatOfNumber` and
   `floatOfText` are Python's `float` applied to a decoded JSON number and to
   a string (None where it raises, as for an integer beyond the double range),
   `haversine` is the distance in kilometres from (lat1, lon1) to (lat2, lon2).
   */
  datatype Env = Env(
    floatOfNumber: real -> Option<real>,
    floatOfText: string -> Option<real>,
    haversine: (real, real, real, real) -> real)

  /** The caller's query point. */
  datatype Point = Point(lat: real, lon: real)

  /** The handler's answer. */
  datatype Response =
    | Found(unitName: Option<Json>, unitAddr: Option<Json>, distanceKm: real)
    | NoValidLocation

  /** Python's `float(v)`; None where the conversion raises. */
  function Float(env: Env, v: Json): (r: Option<real>)
    ensures v.Null? || v.Array? || v.Object? ==> r.None?
    ensures v.Bool? ==> r.Some? && (r.value == 1.0 <==> v.b) && (r.value == 0.0 <==> !v.b)
  {
    match v
    case Null => None
    case Bool(b) => Some(if b then 1.0 else 0.0)
    case Number(n) => env.floatOfNumber(n)
    case Text(s) => env.floatOfText(s)
    case Array(_) => None
    case Object(_) => None
  }

  /** `row.get(key)`: the field's value, None when it is absent. */
  function Get(row: Json, key: string): Option<Json>
    requires row.Object?
  {
    if key in row.fields then Some(row.fields[key]) else None
  }

  /** `float(row.get(key, 0))`: an absent key reads as the number 0. */
  function FieldAsFloat(env: Env, row: Json, key: string): (r: Option<real>)
    requires row.Object?
    ensures key !in row.fields ==> r == Some(0.0)
    ensures key in row.fields ==> r == Float(env, row.fields[key])
  {
    match Get(row, key)
    case None => Some(0.0)
    case Some(v) => Float(env, v)
  }

  /**
   The coordinates the loop body reads from a record, or None when the body
   raises before reaching the distance: `row.get` on something that is not a
   mapping, or a failing `float` on either field (the bare `except` catches all).
   */
  function Coords(env: Env, row: Json): (r: Option<(real, real)>)
    ensures r.Some? <==>
      && row.Object?
      && ("LAT" in row.fields ==> Float(env, row.fields["LAT"]).Some?)
      && ("LON" in row.fields ==> Float(env, row.fields["LON"]).Some?)
    ensures r.Some? ==>
      && r.value.0 == (if "LAT" in row.fields then Float(env, row.fields["LAT"]).value else 0.0)
      && r.value.1 == (if "LON" in row.fields then Float(env, row.fields["LON"]).value else 0.0)
  {
    if !row.Object? then None
    else
      var lat := FieldAsFloat(env, row, "LAT");
      var lon := FieldAsFloat(env, row, "LON");
      if lat.Some? && lon.Some? then Some((lat.value, lon.value)) else None
  }

  /** A record the loop gets past the `try` for. */
  predicate Candidate(env: Env, row: Json)
  {
    Coords(env, row).Some?
  }

  /** The distance from the caller's point to a candidate record. */
  function DistTo(env: Env, p: Point, row: Json): real
    requires Candidate(env, row)
  {
    var (lat, lon) := Coords(env, row).value;
    env.haversine(p.lat, p.lon, lat, lon)
  }

  /** True if no record among the first n is a candidate. */
  ghost predicate NoCandidateAmong(env: Env, rows: seq<Json>, n: nat)
    requires n <= |rows|
  {
    forall j :: 0 <= j < n ==> !Candidate(env, rows[j])
  }

  ghost predicate NoCandidate(env: Env, rows: seq<Json>)
  {
    NoCandidateAmong(env, rows, |rows|)
  }

  /**
   Among the first n records, rows[i] is a candidate at the least distance
   from p, and every candidate before it is strictly farther: it is the
   earliest record at the minimum distance.
   */
  ghost predicate FirstNearestAmong(env: Env, p: Point, rows: seq<Json>, n: nat, i: int)
    requires n <= |rows|
  {
    && 0 <= i < n
    && Candidate(env, rows[i])
    && (forall j :: 0 <= j < n && Candidate(env, rows[j]) ==>
          DistTo(env, p, rows[i]) <= DistTo(env, p, rows[j]))
    && (forall j :: 0 <= j < i && Candidate(env, rows[j]) ==>
          DistTo(env, p, rows[i]) < DistTo(env, p, rows[j]))
  }

  ghost predicate IsFirstNearest(env: Env, p: Point, rows: seq<Json>, i: int)
  {
    FirstNearestAmong(env, p, rows, |rows|, i)
  }

  /**
   The scan of the handler: `closest` starts as None and `minDist` as
   "infinity" (None), and a record replaces them only when its distance is
   strictly below the current minimum.
   */
  method SelectClosest(env: Env, p: Point, rows: seq<Json>)
    returns (closest: Option<Json>, minDist: Option<real>)
    ensures closest.None? <==> NoCandidate(env, rows)
    ensures minDist.None? <==> closest.None?
    ensures closest.Some? ==>
      exists i :: IsFirstNearest(env, p, rows, i)
                  && closest.value == rows[i]
                  && minDist == Some(DistTo(env, p, rows[i]))
  {
    closest := None;
    minDist := None;
    ghost var at: int := -1;
    for k := 0 to |rows|
      invariant closest.None? <==> NoCandidateAmong(env, rows, k)
      invariant minDist.None? <==> closest.None?
      invariant closest.Some? ==>
        && FirstNearestAmong(env, p, rows, k, at)
        && closest.value == rows[at]
        && minDist == Some(DistTo(env, p, rows[at]))
    {
      var row := rows[k];
      var coords := Coords(env, row);
      if coords.Some? {
        var dist := env.haversine(p.lat, p.lon, coords.value.0, coords.value.1);
        if minDist.None? || dist < minDist.value {
          minDist := Some(dist);
          closest := Some(row);
          at := k;
        }
      }
    }
    if closest.Some? {
      assert IsFirstNearest(env, p, rows, at);
    }
  }

  /**
   Python truthiness of the kept record (`not closest`): None, null, false,
   zero and empty text, lists and mappings are falsy.
   */
  predicate Truthy(closest: Option<Json>)
    ensures closest.None? ==> !Truthy(closest)
    ensures closest.Some? && closest.value.Object? ==>
      (Truthy(closest) <==> closest.value != Object(map[]))
  {
    match closest
    case None => false
    case Some(v) =>
      match v
      case Null => false
      case Bool(b) => b
      case Number(n) => n != 0.0
      case Text(t) => |t| > 0
      case Array(items) => |items| > 0
      case Object(fields) => |fields| > 0
  }

  /**
   The whole selection and the answer built from it: the error when the kept
   record is falsy, else its name, address and distance.
   */
  method Nearest(env: Env, p: Point, rows: seq<Json>) returns (resp: Response)
    ensures resp.NoValidLocation? <==>
      (NoCandidate(env, rows) ||
       exists i :: IsFirstNearest(env, p, rows, i) && rows[i] == Object(map[]))
    ensures resp.Found? ==>
      exists i :: IsFirstNearest(env, p, rows, i)
                  && rows[i] != Object(map[])
                  && resp == Found(Get(rows[i], "UNIT_NM"), Get(rows[i], "UNIT_ADDR"),
                                   DistTo(env, p, rows[i]))
  {
    var closest, minDist := SelectClosest(env, p, rows);
    if !Truthy(closest) {
      resp := NoValidLocation;
      if closest.Some? {
        ghost var i :| IsFirstNearest(env, p, rows, i) && closest.value == rows[i];
        assert rows[i] == Object(map[]);
      }
      return;
    }
    ghost var i :| IsFirstNearest(env, p, rows, i) && closest.value == rows[i]
                   && minDist == Some(DistTo(env, p, rows[i]));
    resp := Found(Get(closest.value, "UNIT_NM"), Get(closest.value, "UNIT_ADDR"), minDist.value);
    forall j | IsFirstNearest(env, p, rows, j) ensures j == i {
      FirstNearestUnique(env, p, rows, i, j);
    }
  }

  /** At most one record is the earliest at the minimum distance. */
  lemma FirstNearestUnique(env: Env, p: Point, rows: seq<Json>, i: int, j: int)
    requires IsFirstNearest(env, p, rows, i) && IsFirstNearest(env, p, rows, j)
    ensures i == j
  {
  }

  /** Whenever some record is a candidate, an earliest nearest one exists. */
  lemma {:induction false} FirstNearestExists(env: Env, p: Point, rows: seq<Json>, n: nat)
    requires n <= |rows|
    requires !NoCandidateAmong(env, rows, n)
    ensures exists i :: FirstNearestAmong(env, p, rows, n, i)
  {
    var k := n - 1;
    if NoCandidateAmong(env, rows, k) {
      assert Candidate(env, rows[k]);
      assert FirstNearestAmong(env, p, rows, n, k);
    } else {
      FirstNearestExists(env, p, rows, k);
      var i :| FirstNearestAmong(env, p, rows, k, i);
      if Candidate(env, rows[k]) && DistTo(env, p, rows[k]) < DistTo(env, p, rows[i]) {
        assert FirstNearestAmong(env, p, rows, n, k);
      } else {
        assert FirstNearestAmong(env, p, rows, n, i);
      }
    }
  }

  /** The records with the one at index k taken out. */
  function Without(rows: seq<Json>, k: nat): (r: seq<Json>)
    requires k < |rows|
    ensures |r| == |rows| - 1
    ensures forall j :: 0 <= j < k ==> r[j] == rows[j]
    ensures forall j :: k <= j < |r| ==> r[j] == rows[j + 1]
  {
    rows[..k] + rows[k + 1..]
  }

  /**
   A record the loop skips has no effect: taking it out changes neither
   whether some record is kept nor which record that is.
   */
  lemma SkippedRecordIrrelevant(env: Env, p: Point, rows: seq<Json>, k: nat, i: int)
    requires k < |rows| && !Candidate(env, rows[k])
    ensures NoCandidate(env, rows) <==> NoCandidate(env, Without(rows, k))
    ensures IsFirstNearest(env, p, rows, i) <==>
      (i != k && IsFirstNearest(env, p, Without(rows, k), if i < k then i else i - 1))
  {
    var r := Without(rows, k);
    var i' := if i < k then i else i - 1;
    // every record of rows other than rows[k] is a record of r, and back
    assert forall j :: 0 <= j < |rows| && j != k ==>
      rows[j] == r[if j < k then j else j - 1];
    if i != k && IsFirstNearest(env, p, r, i') {
      assert i' < k ==> rows[i] == r[i'];
      assert i' >= k ==> rows[i] == r[i'];
      forall j | 0 <= j < |rows| && Candidate(env, rows[j])
        ensures DistTo(env, p, rows[i]) <= DistTo(env, p, rows[j])
        ensures j < i ==> DistTo(env, p, rows[i]) < DistTo(env, p, rows[j])
      {
        assert j != k;
        var j' := if j < k then j else j - 1;
        assert rows[j] == r[j'];
      }
    }
    if IsFirstNearest(env, p, rows, i) {
      assert rows[i] == r[i'];
      forall j' | 0 <= j' < |r| && Candidate(env, r[j'])
        ensures DistTo(env, p, r[i']) <= DistTo(env, p, r[j'])
        ensures j' < i' ==> DistTo(env, p, r[i']) < DistTo(env, p, r[j'])
      {
        var j := if j' < k then j' else j' + 1;
        assert r[j'] == rows[j];
      }
    }
  }

  /** Ties go to the earlier record, because only a strictly smaller distance replaces the kept one. */
  lemma TieGoesToEarlier(env: Env, p: Point, rows: seq<Json>, i: int, j: int)
    requires 0 <= i < j < |rows|
    requires Candidate(env, rows[i]) && Candidate(env, rows[j])
    requires DistTo(env, p, rows[i]) == DistTo(env, p, rows[j])
    ensures !IsFirstNearest(env, p, rows, j)
  {
  }

  /** A single candidate is selected whatever its distance. */
  lemma OnlyCandidateSelected(env: Env, p: Point, rows: seq<Json>, k: int)
    requires 0 <= k < |rows| && Candidate(env, rows[k])
    requires forall j :: 0 <= j < |rows| && j != k ==> !Candidate(env, rows[j])
    ensures IsFirstNearest(env, p, rows, k)
  {
  }

  /**
   An absent `LAT` or `LON` reads as 0 and the record stays a candidate
   as long as the other coordinate converts.
   */
  lemma MissingCoordinateDefaultsToZero(env: Env, fields: map<string, Json>)
    ensures "LAT" !in fields ==>
      (Candidate(env, Object(fields)) <==> FieldAsFloat(env, Object(fields), "LON").Some?)
    ensures "LON" !in fields ==>
      (Candidate(env, Object(fields)) <==> FieldAsFloat(env, Object(fields), "LAT").Some?)
    ensures Candidate(env, Object(fields)) ==>
      && ("LAT" !in fields ==> Coords(env, Object(fields)).value.0 == 0.0)
      && ("LON" !in fields ==> Coords(env, Object(fields)).value.1 == 0.0)
  {
  }

  /**
   An empty mapping is a candidate at (0, 0); kept first and no farther than
   the others, it is the selected record, and `Nearest` then answers
   NoValidLocation even when other records are valid.
   */
  lemma EmptyRecordSelected(env: Env, p: Point, rows: seq<Json>)
    requires |rows| > 0 && rows[0] == Object(map[])
    requires forall j :: 0 <= j < |rows| && Candidate(env, rows[j]) ==>
      env.haversine(p.lat, p.lon, 0.0, 0.0) <= DistTo(env, p, rows[j])
    ensures Coords(env, rows[0]) == Some((0.0, 0.0))
    ensures IsFirstNearest(env, p, rows, 0)
  {
  }
}
