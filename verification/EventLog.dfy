/** Appending to the durable session log. */
module EventLog {

  /** Fate of one append: stored and acknowledged, lost, or stored although an error came back. */
  datatype Fate = Stored | Lost | StoredUnacked
}
