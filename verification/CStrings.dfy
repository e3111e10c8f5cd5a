/** Values that may be absent, and text in fixed-size buffers. */
module CStrings {

  datatype Option<+T> = None | Some(value: T)

  /** What a buffer of `capacity` characters holds after a bounded copy and a terminator. */
  function Stored(s: string, capacity: nat): (r: string)
    requires 0 < capacity
    ensures |r| < capacity
    ensures r == s <==> |s| < capacity
  {
    if |s| < capacity then s else s[..capacity - 1]
  }
}
