/**
  The values each program reads at start-up and treats as constants: the
  shared secret, the two status strings of the handshake, and the
  collaborators the model does not open up (SHA-256 and JSON).
 */
module Settings {
  import opened Messages

  datatype Config = Config(
    secret: string,              // SHARED_SECRET
    authSuccess: string,         // AUTH_SUCCESS
    authFailed: string,          // AUTH_FAILED
    sha: string -> string,       // hashlib.sha256(s.encode()).hexdigest()
    codec: JsonCodec)            // json.dumps / json.loads

  /** What the model relies on: decoding undoes encoding and the two status strings differ. */
  ghost predicate WellFormed(cfg: Config) {
    Sound(cfg.codec) && cfg.authSuccess != cfg.authFailed
  }
}
