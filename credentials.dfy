/**
 * One factory's credential store, `userConnections`: username to the
 * password that opened its connection and that connection. These are the
 * state transitions of `getConnection` and `validateConnection` as values;
 * the factory's methods are proved to perform exactly them.
 */
module Credentials {
  import opened Wrappers
  import opened Jdbc

  datatype Credential = Credential(password: string, handle: Handle)

  type Store = map<string, Credential>

  /** The four ways `getConnection` can end. */
  datatype GetResult =
    | Reused(handle: Handle)        // username known, password matches
    | Established(handle: Handle)   // username unknown, connect succeeded
    | PasswordMismatch              // username known under another password
    | ConnectFailed                 // username unknown, connect threw

  /** What the Java caller sees: the connection, or `null` for both failures. */
  function Returned(r: GetResult): (c: Option<Handle>)
    ensures c.None? <==> r.PasswordMismatch? || r.ConnectFailed?
  {
    match r
    case Reused(h) => Some(h)
    case Established(h) => Some(h)
    case PasswordMismatch => None
    case ConnectFailed => None
  }

  /**
   * One `getConnection` call: its result, the store afterwards, whether the
   * driver was asked to connect, and the shutdown hooks it registered.
   */
  datatype GetStep = GetStep(result: GetResult, store: Store, attempted: bool, registered: seq<ExitHook>)

  /**
   * Only an unknown username makes the driver connect; a connection is
   * handed out only under the password it is stored with; and only a new
   * connection is stored and given a shutdown hook.
   */
  function Get(store: Store, username: string, password: string, reply: ConnectReply): (step: GetStep)
    ensures step.attempted <==> username !in store
    ensures Returned(step.result).Some? ==>
      username in step.store && step.store[username] == Credential(password, Returned(step.result).value)
    ensures step.result.Established? ==>
      && step.store == store[username := Credential(password, step.result.handle)]
      && step.registered == [ExitHook(step.result.handle, username)]
    ensures !step.result.Established? ==> step.store == store && step.registered == []
  {
    if username in store then
      if store[username].password == password then GetStep(Reused(store[username].handle), store, false, [])
      else GetStep(PasswordMismatch, store, false, [])
    else
      match reply
      case Connected(h) => GetStep(Established(h), store[username := Credential(password, h)], true, [ExitHook(h, username)])
      case Refused => GetStep(ConnectFailed, store, true, [])
  }

  /** One `validateConnection` call: its answer, the store afterwards and the driver's closed handles afterwards. */
  datatype ValidateStep = ValidateStep(valid: bool, store: Store, closed: set<Handle>)

  /**
   * `validity` is what `isValid` answers; `isClosedFails` and `closeFails`
   * say whether `isClosed` and `close` throw, and `closedAnyway` whether a
   * connection whose `close` threw reports closed afterwards. An answer of
   * true changes nothing, and an entry is removed only once its connection
   * reports closed.
   */
  function Validate(store: Store, username: string, closed: set<Handle>,
                    validity: ValidityReply, isClosedFails: bool, closeFails: bool, closedAnyway: bool)
    : (step: ValidateStep)
    ensures step.valid ==> step.store == store && step.closed == closed
    ensures step.store != store ==>
      && username in store && step.store == store - {username}
      && store[username].handle in step.closed
    ensures closed <= step.closed
  {
    if username !in store then ValidateStep(false, store, closed)
    else
      var h := store[username].handle;
      match validity
      case Valid => ValidateStep(true, store, closed)
      case ValidityError => ValidateStep(false, store, closed)
      case Invalid =>
        if isClosedFails then ValidateStep(false, store, closed)
        else if h in closed then ValidateStep(false, store - {username}, closed)
        else if closeFails then ValidateStep(false, store, if closedAnyway then closed + {h} else closed)
        else ValidateStep(false, store - {username}, closed + {h})
  }

  // ----- getConnection -----

  /** A known username with its own password gets its stored connection back, whatever the driver would say. */
  lemma GetReusesHandle(store: Store, username: string, password: string, reply: ConnectReply)
    requires username in store && store[username].password == password
    ensures var step := Get(store, username, password, reply);
      && Returned(step.result) == Some(store[username].handle)
      && step.store == store && !step.attempted && step.registered == []
  {
  }

  /**
   * A known username under another password gets no connection and no
   * connect attempt; its entry stays, so the original password still gets the
   * original connection.
   */
  lemma MismatchKeepsEntry(store: Store, username: string, password: string, reply: ConnectReply, later: ConnectReply)
    requires username in store && store[username].password != password
    ensures var step := Get(store, username, password, reply);
      && Returned(step.result).None? && step.result.PasswordMismatch?
      && step.store == store && !step.attempted && step.registered == []
      && Returned(Get(step.store, username, store[username].password, later).result) == Some(store[username].handle)
  {
  }

  /**
   * An unknown username makes exactly one connect attempt. Success stores
   * exactly (password, handle), registers one shutdown hook and returns the
   * handle; failure returns nothing and changes nothing.
   */
  lemma UnknownUserConnects(store: Store, username: string, password: string, reply: ConnectReply)
    requires username !in store
    ensures var step := Get(store, username, password, reply);
      && step.attempted
      && (reply.Connected? ==>
            && Returned(step.result) == Some(reply.handle)
            && step.store == store[username := Credential(password, reply.handle)]
            && step.registered == [ExitHook(reply.handle, username)])
      && (reply.Refused? ==>
            && Returned(step.result).None? && step.result.ConnectFailed?
            && step.store == store && step.registered == [])
  {
  }

  /** A second call with the same credentials returns the same connection without connecting again. */
  lemma RepeatedGetIsCached(store: Store, username: string, password: string, first: ConnectReply, second: ConnectReply)
    requires Returned(Get(store, username, password, first).result).Some?
    ensures var step := Get(store, username, password, first);
      var again := Get(step.store, username, password, second);
      && again.result == Reused(Returned(step.result).value)
      && again.store == step.store && !again.attempted && again.registered == []
  {
  }

  /** `getConnection` never changes or removes an existing entry: the first password for a username stays. */
  lemma GetKeepsEntries(store: Store, username: string, password: string, reply: ConnectReply)
    ensures var after := Get(store, username, password, reply).store;
      && (forall u :: u in store ==> u in after && after[u] == store[u])
      && (forall u :: u in after && u !in store ==> u == username)
  {
  }

  // ----- validateConnection -----

  /** An unknown username is reported invalid and nothing changes. */
  lemma ValidateUnknown(store: Store, username: string, closed: set<Handle>,
                        validity: ValidityReply, isClosedFails: bool, closeFails: bool, closedAnyway: bool)
    requires username !in store
    ensures Validate(store, username, closed, validity, isClosedFails, closeFails, closedAnyway) == ValidateStep(false, store, closed)
  {
  }

  /** A connection that probes valid is reported valid, nothing changes, and asking again gives the same answer. */
  lemma ValidIsIdempotent(store: Store, username: string, closed: set<Handle>, isClosedFails: bool, closeFails: bool, closedAnyway: bool)
    requires username in store
    ensures var step := Validate(store, username, closed, Valid, isClosedFails, closeFails, closedAnyway);
      && step == ValidateStep(true, store, closed)
      && Validate(step.store, username, step.closed, Valid, isClosedFails, closeFails, closedAnyway) == step
  {
  }

  /**
   * A confirmed-invalid connection whose `isClosed` and (when called)
   * `close` do not throw is closed, only its username's entry is removed,
   * and the next `getConnection` for that user connects afresh.
   */
  lemma InvalidIsClosedAndRemoved(store: Store, username: string, closed: set<Handle>,
                                  isClosedFails: bool, closeFails: bool, closedAnyway: bool,
                                  password: string, reply: ConnectReply)
    requires username in store
    requires !isClosedFails && (store[username].handle !in closed ==> !closeFails)
    ensures var step := Validate(store, username, closed, Invalid, isClosedFails, closeFails, closedAnyway);
      && !step.valid
      && step.store == store - {username}
      && step.closed == closed + {store[username].handle}
      && Get(step.store, username, password, reply).attempted
  {
  }

  /**
   * When `isValid`, `isClosed` or `close` throws, the answer is false and
   * the entry stays: the removal is skipped. Only a `close` that throws may
   * have closed the connection regardless.
   */
  lemma ProbeErrorKeepsEntry(store: Store, username: string, closed: set<Handle>,
                             validity: ValidityReply, isClosedFails: bool, closeFails: bool, closedAnyway: bool)
    requires username in store
    requires validity == ValidityError
          || (validity == Invalid && isClosedFails)
          || (validity == Invalid && store[username].handle !in closed && closeFails)
    ensures var step := Validate(store, username, closed, validity, isClosedFails, closeFails, closedAnyway);
      && !step.valid && step.store == store
      && closed <= step.closed <= closed + {store[username].handle}
      && (validity == ValidityError || isClosedFails ==> step.closed == closed)
  {
  }

  /**
   * The answer is true exactly for a stored connection that probes valid; an
   * answer of true never changes anything, and the only change ever made is
   * removing `username`'s entry after a confirmed-invalid probe, and closing
   * its connection.
   */
  lemma ValidateChangesAtMostOneEntry(store: Store, username: string, closed: set<Handle>,
                                      validity: ValidityReply, isClosedFails: bool, closeFails: bool, closedAnyway: bool)
    ensures var step := Validate(store, username, closed, validity, isClosedFails, closeFails, closedAnyway);
      && (step.valid <==> username in store && validity == Valid)
      && (step.store == store || (validity == Invalid && step.store == store - {username}))
      && closed <= step.closed
      && (step.closed != closed ==> username in store && validity == Invalid && step.closed == closed + {store[username].handle})
  {
  }

  // ----- shutdown hooks -----

  /** Every stored connection has a shutdown hook for its handle and username. */
  ghost predicate Covered(store: Store, hooks: seq<ExitHook>) {
    forall u :: u in store ==> ExitHook(store[u].handle, u) in hooks
  }

  /** `getConnection` keeps every stored connection covered by a shutdown hook. */
  lemma GetKeepsCovered(store: Store, hooks: seq<ExitHook>, username: string, password: string, reply: ConnectReply)
    requires Covered(store, hooks)
    ensures var step := Get(store, username, password, reply);
      Covered(step.store, hooks + step.registered)
  {
    var step := Get(store, username, password, reply);
    forall u | u in step.store
      ensures ExitHook(step.store[u].handle, u) in hooks + step.registered
    {
      if u in store {
        assert ExitHook(step.store[u].handle, u) in hooks;
      }
    }
  }

  /** `validateConnection` registers nothing and keeps every remaining connection covered. */
  lemma ValidateKeepsCovered(store: Store, hooks: seq<ExitHook>, username: string, closed: set<Handle>,
                             validity: ValidityReply, isClosedFails: bool, closeFails: bool, closedAnyway: bool)
    requires Covered(store, hooks)
    ensures Covered(Validate(store, username, closed, validity, isClosedFails, closeFails, closedAnyway).store, hooks)
  {
  }
}
