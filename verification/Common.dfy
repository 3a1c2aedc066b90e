/** Values shared by every component of the model. */
module Common {

  datatype Option<+T> = None | Some(value: T)

  /* Instants and durations are whole nanoseconds, as in Go's time package. */
  const MICROSECOND: int := 1_000
  const SECOND: int := 1_000_000_000
  const MINUTE: int := 60 * SECOND
  const DAY: int := 24 * 60 * MINUTE

  /** Time.Unix(): the whole seconds of an instant, rounded down. */
  function UnixSeconds(t: int): int {
    t / SECOND
  }

  /** What the database keeps of an instant: whole microseconds, rounded down. */
  function Stored(t: int): int {
    t - t % MICROSECOND
  }

  /** Durations in nanoseconds; stored instants are whole microseconds, and UnixSeconds is the second an instant lies in. */
  lemma InstantsAreCut(t: int)
    ensures Stored(t) % 1_000 == 0 && Stored(t) <= t < Stored(t) + 1_000
    ensures MINUTE == 60_000_000_000 && DAY == 86_400_000_000_000
    ensures UnixSeconds(t) * 1_000_000_000 <= t < (UnixSeconds(t) + 1) * 1_000_000_000
  { }

  /** Storing an instant never moves it behind the whole second it lies in. */
  lemma StoredKeepsSeconds(t: int, later: int)
    requires t <= later
    ensures UnixSeconds(t) * SECOND <= Stored(later) <= later
  { }

  function Max(a: int, b: int): int {
    if a < b then b else a
  }
}
