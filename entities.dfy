/** Values shared by the registry: nullable references, the exceptions the
    registry throws, and the server record itself. */
module Entities {

  /** A C# reference that may be null. */
  datatype Option<+T> = None | Some(value: T)

  /** A call that either returns a value or throws. */
  datatype Result<+R> = Success(value: R) | Failure(error: Error)

  /** A call that returns nothing or throws. */
  datatype Outcome = Pass | Fail(error: Error)

  /** The exceptions the registry raises. */
  datatype Error =
    | ArgumentNull(paramName: string)   // ArgumentNullException(paramName)
    | Argument(message: string)         // ArgumentException(message)
    | NotImplemented                    // NotImplementedException
    | NullReference                     // NullReferenceException

  /** One announced game server. The host address keys the registry; the
      heartbeat is a timestamp in ticks; `details` stands for the descriptive
      fields (name, map, ports, player counts), which the registry never reads. */
  datatype ServerInfo = ServerInfo(
    hostIpAddress: Option<string>,
    lastHeartbeat: int,
    details: string)

  /** `string.IsNullOrEmpty`. */
  predicate IsNullOrEmpty(s: Option<string>)
  {
    s.None? || s.value == ""
  }

  /** Every record is stored under its own host address, so a key names at
      most one server and that server is the one with that address. */
  ghost predicate KeyedByHost(m: map<string, ServerInfo>)
  {
    forall k :: k in m ==> m[k].hostIpAddress == Some(k)
  }
}
