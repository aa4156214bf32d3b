/**
 * The parts of the JDBC driver and of the Java runtime the factory touches.
 * What the database answers is not known to the model: every reply is a
 * parameter, chosen by the environment.
 */
module Jdbc {
  import opened Wrappers

  /** The identity of one `java.sql.Connection` object. */
  type Handle = nat

  /** The arguments of one `DriverManager.getConnection` call. */
  datatype ConnectAttempt = ConnectAttempt(url: string, username: string, password: string)

  /** What `DriverManager.getConnection` does: hand out a connection or throw `SQLException`. */
  datatype ConnectReply = Connected(handle: Handle) | Refused

  /** What `isValid(timeout)` does: answer true, answer false, or throw `SQLException`. */
  datatype ValidityReply = Valid | Invalid | ValidityError

  /** One shutdown hook: close `handle`, opened for `username`, if it is still open at exit. */
  datatype ExitHook = ExitHook(handle: Handle, username: string)

  /** The driver's state as far as the factory can observe it. */
  class Driver {
    /** Every physical connect attempt, in order. */
    var attempts: seq<ConnectAttempt>
    /** The handles that report `isClosed() == true`. */
    var closed: set<Handle>

    constructor ()
      ensures attempts == [] && closed == {}
    {
      attempts := [];
      closed := {};
    }

    /** `DriverManager.getConnection(url, username, password)`; its outcome is `reply`. */
    method Connect(url: string, username: string, password: string, reply: ConnectReply) returns (r: ConnectReply)
      modifies this
      ensures r == reply
      ensures attempts == old(attempts) + [ConnectAttempt(url, username, password)]
      ensures closed == old(closed)
    {
      attempts := attempts + [ConnectAttempt(url, username, password)];
      r := reply;
    }

    /** `handle.isClosed()`: `None` when it throws. */
    method IsClosed(handle: Handle, fails: bool) returns (r: Option<bool>)
      ensures fails <==> r.None?
      ensures r.Some? ==> (r.value <==> handle in closed)
    {
      r := if fails then None else Some(handle in closed);
    }

    /**
     * `handle.close()`: false when it throws. JDBC does not say what state a
     * connection is left in when `close` throws, so `closedAnyway` chooses
     * whether it reports closed afterwards.
     */
    method Close(handle: Handle, fails: bool, closedAnyway: bool) returns (ok: bool)
      modifies this
      ensures ok <==> !fails
      ensures closed == if ok || closedAnyway then old(closed) + {handle} else old(closed)
      ensures attempts == old(attempts)
    {
      ok := !fails;
      if ok || closedAnyway {
        closed := closed + {handle};
      }
    }
  }

  /** The process-wide list of shutdown hooks (`Runtime.getRuntime()`). */
  class Runtime {
    var hooks: seq<ExitHook>

    constructor ()
      ensures hooks == []
    {
      hooks := [];
    }

    /** `addShutdownHook`: the hook runs at exit; the model records the registration only. */
    method AddShutdownHook(hook: ExitHook)
      modifies this
      ensures hooks == old(hooks) + [hook]
    {
      hooks := hooks + [hook];
    }
  }
}
