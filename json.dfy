/**
 * The JSON helpers of src/json.cpp over a JSON value in the shape of
 * `boost::json::value`. Every accessor takes a `silent` flag that only
 * decides whether a failure is logged; logging is not modelled, so the flag
 * never reaches a result, and lemma SilentChangesNothing says so.
 */
module Json {
  import opened Wrappers
  import Date
  import DateLemmas

  /** `std::int64_t`, the payload of an int64 value and C++ `long` here. */
  newtype int64 = x: int | -0x8000_0000_0000_0000 <= x < 0x8000_0000_0000_0000

  /** `std::uint64_t`, the payload of a uint64 value. */
  newtype uint64 = x: int | 0 <= x < 0x1_0000_0000_0000_0000

  /**
   * `boost::json::value`: one of its eight kinds. A double is kept as a real
   * number; none of the helpers looks at its value.
   */
  datatype Value =
    | Null
    | Bool(b: bool)
    | Int64(i: int64)
    | UInt64(u: uint64)
    | Double(d: real)
    | String(s: string)
    | Array(elems: seq<Value>)
    | Object(members: map<string, Value>)

  /** `Json::has`: the value is an object with a member called `name`. */
  predicate Has(j: Value, name: string) {
    j.Object? && name in j.members
  }

  /**
   * `Json::getMember`: the member called `name`, or null when the value is
   * not an object or has no such member.
   */
  function GetMember(j: Value, name: string, silent: bool): (r: Value)
    ensures Has(j, name) ==> r == j.members[name]
    ensures !Has(j, name) ==> r == Null
  {
    if !j.Object? then Null
    else if name !in j.members then Null
    else j.members[name]
  }

  /** `Json::getString`: the member's text when the member is a string. */
  function GetString(j: Value, name: string, silent: bool): (r: Option<string>)
    ensures r.Some? <==> Has(j, name) && j.members[name].String?
    ensures r.Some? ==> j.members[name] == String(r.value)
  {
    var obj := GetMember(j, name, silent);
    if !obj.String? then None else Some(obj.s)
  }

  /** `Json::getArray`: the member's elements when the member is an array. */
  function GetArray(j: Value, name: string, silent: bool): (r: Option<seq<Value>>)
    ensures r.Some? <==> Has(j, name) && j.members[name].Array?
    ensures r.Some? ==> j.members[name] == Array(r.value)
  {
    var obj := GetMember(j, name, silent);
    if !obj.Array? then None else Some(obj.elems)
  }

  /** `Json::getObject`: the member itself when the member is an object. */
  function GetObject(j: Value, name: string, silent: bool): (r: Option<Value>)
    ensures r.Some? <==> Has(j, name) && j.members[name].Object?
    ensures r.Some? ==> r.value == j.members[name] && r.value.Object?
  {
    var obj := GetMember(j, name, silent);
    if !obj.Object? then None else Some(obj)
  }

  /** `Json::getBool`: the member's truth value when the member is a bool. */
  function GetBool(j: Value, name: string, silent: bool): (r: Option<bool>)
    ensures r.Some? <==> Has(j, name) && j.members[name].Bool?
    ensures r.Some? ==> j.members[name] == Bool(r.value)
  {
    var obj := GetMember(j, name, silent);
    if !obj.Bool? then None else Some(obj.b)
  }

  /**
   * `Json::getNumber`: the member's integer when the member is an int64; a
   * uint64 or a double member is refused like any other kind.
   */
  function GetNumber(j: Value, name: string, silent: bool): (r: Option<int64>)
    ensures r.Some? <==> Has(j, name) && j.members[name].Int64?
    ensures r.Some? ==> j.members[name] == Int64(r.value)
  {
    var obj := GetMember(j, name, silent);
    if !obj.Int64? then None else Some(obj.i)
  }

  /** What `as_int64` demands of a `"$date"` member; any other kind throws. */
  predicate DateMemberIsInt(j: Value) {
    Has(j, "$date") ==> j.members["$date"].Int64?
  }

  /**
   * `Json::toISODate`: `not_object` for a value that is not an object,
   * `bad_object` for an object without `"$date"`, and otherwise the ISO text
   * of the `"$date"` milliseconds. The two markers are never ISO text, so
   * each marker is returned exactly in its own case.
   */
  function ToISODate(j: Value): (r: string)
    requires DateMemberIsInt(j)
    ensures r == "not_object" <==> !j.Object?
    ensures r == "bad_object" <==> j.Object? && "$date" !in j.members
    ensures Has(j, "$date") ==> r == Date.ToISODate(j.members["$date"].i as int)
  {
    if !j.Object? then "not_object"
    else if "$date" !in j.members then "bad_object"
    else
      var t := j.members["$date"].i as int;
      DateLemmas.ToISODateHasPlus(t);
      assert '+' !in "not_object" && '+' !in "bad_object";
      Date.ToISODate(t)
  }

  /** A member that is itself null cannot be told from a missing one by `getMember`. */
  lemma {:induction false} NullMemberLooksMissing(j: Value, name: string, other: string, silent: bool)
    requires Has(j, name) && j.members[name] == Null && !Has(j, other)
    ensures GetMember(j, name, silent) == GetMember(j, other, silent) == Null
  {
  }

  /** Every typed getter that succeeds has found a member, so `has` holds. */
  lemma {:induction false} GettersImplyHas(j: Value, name: string, silent: bool)
    ensures GetString(j, name, silent).Some? ==> Has(j, name)
    ensures GetArray(j, name, silent).Some? ==> Has(j, name)
    ensures GetObject(j, name, silent).Some? ==> Has(j, name)
    ensures GetBool(j, name, silent).Some? ==> Has(j, name)
    ensures GetNumber(j, name, silent).Some? ==> Has(j, name)
  {
  }

  /** At most one typed getter succeeds on a member: the kinds are exclusive. */
  lemma {:induction false} GettersExclusive(j: Value, name: string, silent: bool)
    ensures GetString(j, name, silent).Some? ==>
      GetArray(j, name, silent).None? && GetObject(j, name, silent).None?
      && GetBool(j, name, silent).None? && GetNumber(j, name, silent).None?
    ensures GetArray(j, name, silent).Some? ==>
      GetObject(j, name, silent).None? && GetBool(j, name, silent).None? && GetNumber(j, name, silent).None?
    ensures GetObject(j, name, silent).Some? ==> GetBool(j, name, silent).None? && GetNumber(j, name, silent).None?
    ensures GetBool(j, name, silent).Some? ==> GetNumber(j, name, silent).None?
  {
  }

  /** The `silent` flag changes no result, only whether a failure is logged. */
  lemma {:induction false} SilentChangesNothing(j: Value, name: string)
    ensures GetMember(j, name, true) == GetMember(j, name, false)
    ensures GetString(j, name, true) == GetString(j, name, false)
    ensures GetArray(j, name, true) == GetArray(j, name, false)
    ensures GetObject(j, name, true) == GetObject(j, name, false)
    ensures GetBool(j, name, true) == GetBool(j, name, false)
    ensures GetNumber(j, name, true) == GetNumber(j, name, false)
  {
  }

  /** A `"$date"` document from the epoch to the end of year 9999 survives printing and decoding. */
  lemma {:induction false} DateDocumentRoundTrip(j: Value)
    requires Has(j, "$date") && j.members["$date"].Int64?
    requires 0 <= j.members["$date"].i as int < DateLemmas.EndOf9999
    ensures Date.FromISODate(ToISODate(j)) == j.members["$date"].i as int
  {
    DateLemmas.IsoRoundTripFromEpoch(j.members["$date"].i as int);
  }
}
