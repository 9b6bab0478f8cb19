/** Results of operations that can fail. */
module Results {
  datatype Option<+T> = None | Some(value: T)
  {
    function GetOr(default: T): T { if Some? then value else default }
  }

  /** Fail is an error return of the source, Crash a run-time panic. */
  datatype Outcome<+T> = Ok(value: T) | Fail | Crash
}
