/** Parsed JSON values, as far as the regression gates look into them.
    Object keys are an enumeration: the gates read a fixed set of keys, and `Named` covers keys that are data. */
module Json {

  datatype Field =
    | SchemaVersion | VersionCheck | ModernFeatureEnablement | OfficialConformance | Repository | GitRef
    | AuthenticationIncluded | Scenarios | BaselineKind | RequiredModes | Transports | Checks | Passing | Failing
    | Mode | Transport | Source | Scenario | CheckId | Name | Status | Success | Cases | AutomaticAuthRequired
    | Reviewer | Modes | RequiredCases | Summary
    | Passed | Failed | Total | CasesPassed | CasesTotal
    | Named(name: string)

  datatype Json =
    | Null
    | Bool(flag: bool)
    | Num(number: real)
    | Str(text: string)
    | List(items: seq<Json>)
    | Obj(fields: map<Field, Json>)

  type Object = map<Field, Json>

  // `object.get(key)`: None for an absent key, which also stands for JSON null.
  function Get(o: Object, f: Field): Json {
    if f in o then o[f] else Null
  }

  // Python's `==` between a JSON value and an integer; True and False equal 1 and 0.
  predicate EqualsInt(j: Json, n: int) {
    (j.Num? && j.number == n as real) || (j.Bool? && n == if j.flag then 1 else 0)
  }

  function Strings(texts: seq<string>): Json {
    List(seq(|texts|, i requires 0 <= i < |texts| => Str(texts[i])))
  }
}
