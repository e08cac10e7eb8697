/** The values every stage of the scraper hands to the next one. */
module Outcomes {

  type Url = string

  datatype Option<T> = None | Some(value: T)

  /** The two ways the program dies with an uncaught exception that the
      model keeps. The third, the `ValueError` the DataFrame constructor
      raises on a table whose rows do not fit its headers, is excluded by
      the `WellShaped` precondition instead. */
  datatype Error =
    | FetchFailed(url: Url)   // the HTTP request raised, or the status was not a success
    | MissingHref             // an anchor without an `href` attribute was indexed

  /** The result of running a stage: a value, a fatal error, or (for the
      unbounded pagination loop) the step bound ran out before it stopped. */
  datatype Outcome<T> = Done(value: T) | Failed(error: Error) | OutOfFuel

  /** A failure of one stage, passed on unchanged by the stage that called it. */
  function Propagate<T, U>(o: Outcome<T>): (r: Outcome<U>)
    requires !o.Done?
  {
    if o.Failed? then Failed(o.error) else OutOfFuel
  }
}
