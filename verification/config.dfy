/** Constants of the node build (`src/webserver/src/config.rs`). */
module Config {
  /** Identifier width in bits used by `utils.rs` and `chord.rs`. */
  const M: nat := 16
  /** Maximum number of forwarding hops before a lookup stops. */
  const HOP_LIMIT: nat := 16
  /** Idle limit of the activity timer, in minutes. */
  const IDLE_LIMIT: nat := 10
}
