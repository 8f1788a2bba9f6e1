/** The request envelope every exchange starts from. */
module Protobuf {
  import opened Wrappers
  import opened Ints
  import opened Messages

  /**
   * `new_request`: a request addressed to the laser setup in the current
   * protocol version, with no payload yet. The correlation id comes from a
   * random number generator in the source; here it is the caller's `id`.
   */
  function NewRequest(id: u32): (r: Request)
    ensures r.id == id
    ensures r.deviceId == LASER_SETUP_ID
    ensures r.protocolVersion == PROTOCOL_VERSION
    ensures r.control.None? && r.i2c.None?
  {
    Request(id, LASER_SETUP_ID, PROTOCOL_VERSION, None, None)
  }

  /** Two fresh requests differ at most in their id. */
  lemma NewRequestsDifferOnlyInId(a: u32, b: u32)
    ensures NewRequest(a).(id := b) == NewRequest(b)
    ensures NewRequest(a) == NewRequest(b) <==> a == b
  {
  }
}
