/** Optional values, results, and the run-time panics of the filter engine
    expressed as values, so that every operation is a total function. */
module Outcomes {

  /** A Go value that may be nil (a nil map, a nil *regexp.Regexp). */
  datatype Option<+T> = None | Some(value: T)

  datatype Result<+T, +E> = Ok(value: T) | Err(error: E)

  /** The ways the engine stops with a Go panic instead of returning. */
  datatype Panic =
    /** `rule[:2]` on an intermediate pattern that is a single byte long. */
    | PatternTooShort(pattern: string)
    /** A rule with domain options evaluated without a "domain" context entry. */
    | MissingDomain
    /** The "domain" context entry holds something other than a string. */
    | DomainNotString
}
