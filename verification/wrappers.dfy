/** Optional values: JavaScript's `undefined` next to a present value. */
module Wrappers {

  datatype Option<+T> = None | Some(value: T)

  /** A JavaScript string taken as a condition: truthy unless absent or empty. */
  predicate TruthyString(o: Option<string>) {
    o.Some? && o.value != ""
  }

  /** `o || d` for an optional string: `d` stands in for a missing or empty `o`. */
  function OrDefault(o: Option<string>, d: string): (r: string)
    ensures d != "" ==> r != ""
    ensures TruthyString(o) ==> r == o.value
    ensures !TruthyString(o) ==> r == d
  {
    if TruthyString(o) then o.value else d
  }
}
