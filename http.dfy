/** The parts of an HTTP request the handlers read. */
module Http {

  /**
   * Request headers, keyed by lower-case name (`Headers.get` is case-insensitive),
   * or URL search parameters, keyed by name and holding the first value given.
   */
  type Params = map<string, string>

  /** `params.get(name) || ""`: the value, or the empty string when it is absent. */
  function Get(params: Params, name: string): (v: string)
    ensures name !in params ==> v == ""
    ensures name in params ==> v == params[name]
  {
    if name in params then params[name] else ""
  }
}
