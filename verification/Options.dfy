/** A value that may be missing, as nullable columns and lookups that find nothing are. */
module Options {
  datatype Option<+T> = None | Some(value: T)

  /** Whether an idempotency key was sent at all: the empty string counts as none. */
  predicate Keyed(key: Option<string>) {
    key.Some? && key.value != ""
  }
}
