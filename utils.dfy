/**
 * lib/utils.js (and the identical helpers of server.js): required-field
 * validation and the coordinate guard of the distance computation.
 */
module Utils {
  import opened Wrappers
  import opened Js
  import opened Seqs

  /** lib/utils.js:23: the field is falsy, or prints as a blank string. */
  predicate Missing(v: Value) {
    !Truthy(v) || Trim(ToString(v)) == ""
  }

  /** api/login.js:30: the field is falsy, is not a string, or is blank. */
  predicate MissingOrNotString(v: Value) {
    !Truthy(v) || !v.Str? || Trim(v.s) == ""
  }

  /** The position of the first field of `fields` whose value in `body` is `bad`. */
  function FirstFailing(body: map<string, Value>, fields: seq<string>, bad: Value -> bool): (r: Option<nat>)
    ensures r.None? <==> forall i :: 0 <= i < |fields| ==> !bad(Get(body, fields[i]))
    ensures r.Some? ==> r.value < |fields| && bad(Get(body, fields[r.value]))
    ensures r.Some? ==> forall i :: 0 <= i < r.value ==> !bad(Get(body, fields[i]))
  {
    FirstIndex(fields, (f: string) => bad(Get(body, f)))
  }

  /** The field the loop stops at is the one the specification names. */
  lemma FirstFailingIs(body: map<string, Value>, fields: seq<string>, bad: Value -> bool, k: nat)
    requires k < |fields| && bad(Get(body, fields[k]))
    requires forall i :: 0 <= i < k ==> !bad(Get(body, fields[i]))
    ensures FirstFailing(body, fields, bad) == Some(k)
  {
    FirstIndexUnique(fields, (f: string) => bad(Get(body, f)), k);
  }

  /** The loop of `validateInput`: stops at the first failing field. */
  method FindFirstFailing(body: map<string, Value>, fields: seq<string>, bad: Value -> bool) returns (r: Option<nat>)
    ensures r.None? ==> forall i :: 0 <= i < |fields| ==> !bad(Get(body, fields[i]))
    ensures r.Some? ==> r.value < |fields| && bad(Get(body, fields[r.value]))
    ensures r.Some? ==> forall i :: 0 <= i < r.value ==> !bad(Get(body, fields[i]))
  {
    for i := 0 to |fields|
      invariant forall j :: 0 <= j < i ==> !bad(Get(body, fields[j]))
    {
      if bad(Get(body, fields[i])) {
        return Some(i);
      }
    }
    return None;
  }

  /** `validateInput(data, fields)` of lib/utils.js: null, or "`field` is required" for the first missing field. */
  function ValidationError(body: map<string, Value>, fields: seq<string>): (r: Option<string>)
    ensures r.None? <==> forall i :: 0 <= i < |fields| ==> !Missing(Get(body, fields[i]))
    ensures r.Some? ==>
      (exists k :: 0 <= k < |fields| && Missing(Get(body, fields[k]))
        && (forall i :: 0 <= i < k ==> !Missing(Get(body, fields[i])))
        && r.value == fields[k] + " is required")
  {
    match FirstFailing(body, fields, Missing)
    case None => None
    case Some(k) => Some(fields[k] + " is required")
  }

  /** The handlers' call of `validateInput`, running its loop. */
  method ValidateInput(body: map<string, Value>, fields: seq<string>) returns (r: Option<string>)
    ensures r == ValidationError(body, fields)
  {
    var k := FindFirstFailing(body, fields, Missing);
    if k.Some? {
      FirstFailingIs(body, fields, Missing, k.value);
      r := Some(fields[k.value] + " is required");
    } else {
      r := None;
    }
  }

  /** `validateInput` of api/login.js: the field must also be a string. */
  function StringValidationError(body: map<string, Value>, fields: seq<string>): (r: Option<string>)
    ensures r.None? <==> forall i :: 0 <= i < |fields| ==> !MissingOrNotString(Get(body, fields[i]))
    ensures r.Some? ==>
      (exists k :: 0 <= k < |fields| && MissingOrNotString(Get(body, fields[k]))
        && (forall i :: 0 <= i < k ==> !MissingOrNotString(Get(body, fields[i])))
        && r.value == fields[k] + " is required and cannot be empty")
  {
    match FirstFailing(body, fields, MissingOrNotString)
    case None => None
    case Some(k) => Some(fields[k] + " is required and cannot be empty")
  }

  /** A number in the body, or a non-blank string, passes; `0`, `false` and blank strings do not. */
  lemma MissingIff(v: Value)
    ensures Missing(v) <==> (!Truthy(v) || (v.Str? && AllWhitespace(v.s)))
  {
    if Truthy(v) && !v.Str? {
      TruthyNonStringNotBlank(v);
    }
    if v.Str? {
      TrimBlankIff(v.s);
    }
  }

  /** The login variant is the stricter one: what lib/utils.js rejects, api/login.js rejects too. */
  lemma StringValidationStricter(body: map<string, Value>, fields: seq<string>)
    ensures ValidationError(body, fields).Some? ==> StringValidationError(body, fields).Some?
  {
    if ValidationError(body, fields).Some? {
      var k :| 0 <= k < |fields| && Missing(Get(body, fields[k]));
      assert MissingOrNotString(Get(body, fields[k]));
    }
  }

  /** A distance as JavaScript computes it: metres, `Infinity`, or `NaN`. */
  datatype Distance = Meters(m: real) | Infinity | NotANumber

  /** The geofence radius, in metres. */
  const MAX_DISTANCE: real := 100.0

  predicate Finite(n: Number) {
    n.Finite?
  }

  /**
   * `getDistance(lat1, lon1, lat2, lon2)`: `Infinity` when a coordinate is
   * falsy; otherwise the haversine value, which is NaN when a coordinate is
   * infinite (the sine and cosine of an infinity are NaN, and NaN propagates
   * through the formula). The formula on four finite coordinates is the
   * parameter `haversine`.
   */
  function GetDistance(lat1: Number, lon1: Number, lat2: Number, lon2: Number,
                       haversine: (real, real, real, real) -> real): (d: Distance)
    ensures d.Infinity? <==>
      !(NumberTruthy(lat1) && NumberTruthy(lon1) && NumberTruthy(lat2) && NumberTruthy(lon2))
    ensures d.Meters? ==>
      (Finite(lat1) && Finite(lon1) && Finite(lat2) && Finite(lon2)
        && d.m == haversine(lat1.r, lon1.r, lat2.r, lon2.r))
    ensures d.NotANumber? ==> !(Finite(lat1) && Finite(lon1) && Finite(lat2) && Finite(lon2))
  {
    if !NumberTruthy(lat1) || !NumberTruthy(lon1) || !NumberTruthy(lat2) || !NumberTruthy(lon2) then
      Infinity
    else if !(lat1.Finite? && lon1.Finite? && lat2.Finite? && lon2.Finite?) then
      NotANumber
    else
      Meters(haversine(lat1.r, lon1.r, lat2.r, lon2.r))
  }

  /** `distance > MAX_DISTANCE` as written: every comparison with NaN is false. */
  predicate ExceedsAsWritten(d: Distance) {
    match d
    case Meters(m) => m > MAX_DISTANCE
    case Infinity => true
    case NotANumber => false
  }

  /** The geofence gate with NaN rejected: only a measured distance of at most 100 m passes. */
  predicate OutsideGeofence(d: Distance) {
    !(d.Meters? && d.m <= MAX_DISTANCE)
  }

  /** A falsy coordinate (0, NaN) always fails the geofence, under either gate. */
  lemma FalsyCoordinateFailsGate(lat1: Number, lon1: Number, lat2: Number, lon2: Number,
                                  haversine: (real, real, real, real) -> real)
    requires !NumberTruthy(lat1) || !NumberTruthy(lon1) || !NumberTruthy(lat2) || !NumberTruthy(lon2)
    ensures GetDistance(lat1, lon1, lat2, lon2, haversine) == Infinity
    ensures ExceedsAsWritten(GetDistance(lat1, lon1, lat2, lon2, haversine))
    ensures OutsideGeofence(GetDistance(lat1, lon1, lat2, lon2, haversine))
  {
  }

  /**
   * As written, a truthy infinite coordinate (the student sends `"Infinity"`)
   * makes the distance NaN, and `NaN > 100` is false: the gate lets the
   * student through wherever the class is.
   */
  lemma InfiniteCoordinatePassesAsWrittenGate(lon1: Number, lat2: Number, lon2: Number,
                                              haversine: (real, real, real, real) -> real)
    requires NumberTruthy(lon1) && NumberTruthy(lat2) && NumberTruthy(lon2)
    ensures GetDistance(PosInf, lon1, lat2, lon2, haversine) == NotANumber
    ensures !ExceedsAsWritten(GetDistance(PosInf, lon1, lat2, lon2, haversine))
  {
  }

  /** With NaN rejected, only four finite coordinates within 100 m pass. */
  lemma GeofencePassIff(lat1: Number, lon1: Number, lat2: Number, lon2: Number,
                        haversine: (real, real, real, real) -> real)
    ensures !OutsideGeofence(GetDistance(lat1, lon1, lat2, lon2, haversine)) <==>
      && Finite(lat1) && Finite(lon1) && Finite(lat2) && Finite(lon2)
      && lat1.r != 0.0 && lon1.r != 0.0 && lat2.r != 0.0 && lon2.r != 0.0
      && haversine(lat1.r, lon1.r, lat2.r, lon2.r) <= MAX_DISTANCE
  {
  }

  /** The two gates disagree only on NaN. */
  lemma GatesAgreeExceptOnNaN(d: Distance)
    requires !d.NotANumber?
    ensures ExceedsAsWritten(d) == OutsideGeofence(d)
  {
  }
}
