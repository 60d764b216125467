/**
 * The fact store: `driverData`, the loaded name-to-record mapping, together with
 * `driverNames`, its keys in the order `Object.keys` lists them.
 */
module FactStore {

  /** One record of the dataset (its shape only; the loader is not modelled). */
  datatype DriverStats = DriverStats(team: string, wins: int, championships: int, careerSpan: string)

  datatype Store = Store(data: map<string, DriverStats>, names: seq<string>)

  /**
   * `names` lists every key of `data` exactly once, and no key is the empty
   * string (the matcher needs non-empty names to make progress).
   */
  predicate Valid(s: Store)
  {
    (forall k | k in s.names :: k in s.data && |k| > 0)
    && (forall k | k in s.data :: k in s.names)
    && (forall i, j | 0 <= i < j < |s.names| :: s.names[i] != s.names[j])
  }
}
