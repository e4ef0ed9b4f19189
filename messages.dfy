/** The two JSON shapes exchanged over the Unix socket, as decoded values. */
module Messages {

  /** What a client sends: `{"username": ..., "password": ...}`. */
  datatype IngoingMessage = IngoingMessage(name: string, password: string)

  /** What the daemon answers: `{"ok": ...}`. */
  datatype OutgoingMessage = OutgoingMessage(ok: bool)
}
