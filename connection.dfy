/**
 * `ConnectionFactory`: one factory per database endpoint, kept in a
 * process-wide least-recently-used cache, each holding one connection per
 * username.
 */
module Connection {
  import opened Wrappers
  import opened Decimal
  import opened Jdbc
  import Url
  import Lru
  import Credentials

  /** The cache key, `MultiKey(host, port, databaseName)`, compared by value. */
  datatype Key = Key(host: string, port: Int32, databaseName: string)

  class ConnectionFactory {
    const host: string
    const port: Int32
    const databaseName: string
    const schema: string
    /** Derived once from the four coordinates when the factory is built. */
    const connectionUrl: string := Url.Build(host, port, databaseName, schema)
    var userConnections: Credentials.Store

    constructor (host: string, port: Int32, databaseName: string, schema: string)
      ensures this.host == host && this.port == port
      ensures this.databaseName == databaseName && this.schema == schema
      ensures userConnections == map[]
    {
      this.host := host;
      this.port := port;
      this.databaseName := databaseName;
      this.schema := schema;
      userConnections := map[];
    }

    /** The coordinates this factory is cached under. */
    function CacheKey(): Key {
      Key(host, port, databaseName)
    }

    /*
     * Each accessor returns the coordinate the URL names: as long as the host
     * has no `:` and the database name no `?`, reading the URL back yields
     * the accessor's value.
     */

    function GetHost(): (h: string)
      ensures ':' !in host && '?' !in databaseName ==>
        Url.Parse(connectionUrl).Some? && Url.Parse(connectionUrl).value.host == h
    {
      UrlFacts(); host
    }

    function GetPort(): (p: Int32)
      ensures ':' !in host && '?' !in databaseName ==>
        Url.Parse(connectionUrl).Some? && Url.Parse(connectionUrl).value.port == p
    {
      UrlFacts(); port
    }

    function GetDatabaseName(): (d: string)
      ensures ':' !in host && '?' !in databaseName ==>
        Url.Parse(connectionUrl).Some? && Url.Parse(connectionUrl).value.databaseName == d
    {
      UrlFacts(); databaseName
    }

    function GetSchema(): (s: string)
      ensures ':' !in host && '?' !in databaseName ==>
        Url.Parse(connectionUrl).Some? && Url.Parse(connectionUrl).value.schema == s
    {
      UrlFacts(); schema
    }

    lemma UrlFacts()
      ensures ':' !in host && '?' !in databaseName ==>
        Url.Parse(connectionUrl) == Some(Url.Coordinates(host, port, databaseName, schema))
    {
      if ':' !in host && '?' !in databaseName {
        Url.UrlRoundTrip(host, port, databaseName, schema);
      }
    }

    /** The URL is the concatenation of the scheme and what the other four accessors return. */
    function GetConnectionUrl(): (url: string)
      ensures url == Url.Build(GetHost(), GetPort(), GetDatabaseName(), GetSchema())
    {
      connectionUrl
    }

    /**
     * `getConnection(username, password)`: the stored connection, `None` on a
     * password mismatch without asking the driver, or else one connect
     * attempt with this factory's URL, whose connection is stored and given a
     * shutdown hook.
     */
    method GetConnection(username: string, password: string, driver: Driver, runtime: Runtime, reply: ConnectReply)
      returns (connection: Option<Handle>)
      modifies this, driver, runtime
      ensures var step := Credentials.Get(old(userConnections), username, password, reply);
        && connection == Credentials.Returned(step.result)
        && userConnections == step.store
        && runtime.hooks == old(runtime.hooks) + step.registered
        && driver.attempts == old(driver.attempts)
             + (if step.attempted then [ConnectAttempt(connectionUrl, username, password)] else [])
        && driver.closed == old(driver.closed)
      ensures old(Credentials.Covered(userConnections, runtime.hooks)) ==> Credentials.Covered(userConnections, runtime.hooks)
    {
      ghost var covered := Credentials.Covered(userConnections, runtime.hooks);
      if covered {
        Credentials.GetKeepsCovered(userConnections, runtime.hooks, username, password, reply);
      }
      if username in userConnections {
        var entry := userConnections[username];
        if entry.password == password {
          return Some(entry.handle);
        } else {
          return None;
        }
      } else {
        var r := driver.Connect(connectionUrl, username, password, reply);
        match r
        case Refused =>
          return None;
        case Connected(h) =>
          userConnections := userConnections[username := Credentials.Credential(password, h)];
          EnsureConnectionExit(h, username, runtime);
          return Some(h);
      }
    }

    /**
     * `validateConnection(username)`: true exactly when a stored connection
     * probes valid; a confirmed-invalid one is closed if still open and its
     * entry removed; any exception on the way answers false and keeps the
     * entry.
     */
    method ValidateConnection(username: string, driver: Driver,
                              validity: ValidityReply, isClosedFails: bool, closeFails: bool, closedAnyway: bool)
      returns (valid: bool)
      modifies this, driver
      ensures var step := Credentials.Validate(old(userConnections), username, old(driver.closed),
                                               validity, isClosedFails, closeFails, closedAnyway);
        && valid == step.valid
        && userConnections == step.store
        && driver.closed == step.closed
        && driver.attempts == old(driver.attempts)
    {
      if username !in userConnections {
        return false;
      }
      var h := userConnections[username].handle;
      match validity
      case Valid =>
        return true;
      case ValidityError =>
        return false;
      case Invalid =>
        var isClosed := driver.IsClosed(h, isClosedFails);
        if isClosed.None? {
          return false;
        }
        if !isClosed.value {
          var ok := driver.Close(h, closeFails, closedAnyway);
          if !ok {
            return false;
          }
        }
        userConnections := userConnections - {username};
        return false;
    }

    /** `ensureConnectionExit`: registers one shutdown hook for this connection. */
    method EnsureConnectionExit(connection: Handle, username: string, runtime: Runtime)
      modifies runtime
      ensures runtime.hooks == old(runtime.hooks) + [ExitHook(connection, username)]
    {
      runtime.AddShutdownHook(ExitHook(connection, username));
    }
  }

  /**
   * Like `MultiKey`, the key compares by value: two factories share a key
   * exactly when their host, port and database name agree, whatever their
   * schemas. It follows from `Key` being a datatype, so it needs no proof; it
   * records the keying, in which the schema plays no part.
   */
  lemma KeyByCoordinates(a: ConnectionFactory, b: ConnectionFactory)
    ensures a.CacheKey() == b.CacheKey() <==>
      a.GetHost() == b.GetHost() && a.GetPort() == b.GetPort() && a.GetDatabaseName() == b.GetDatabaseName()
  {
  }

  /** The invariant of the cache's state: LRU order over the accesses, and each factory under its own key. */
  ghost predicate CacheState(order: seq<Key>, entries: map<Key, ConnectionFactory>, accesses: seq<Key>) {
    && Lru.HoldsMostRecent(order, accesses)
    && (forall k :: k in order <==> k in entries)
    && (forall k :: k in entries ==> entries[k].CacheKey() == k)
  }

  /** The entries after `put(k, factory)`: the evicted key, if any, gone and `k` bound to `factory`. */
  function PutEntry(order: seq<Key>, entries: map<Key, ConnectionFactory>, k: Key, factory: ConnectionFactory)
    : (r: map<Key, ConnectionFactory>)
    ensures forall j :: j in r <==> j == k || (j in entries && Lru.Evicted(order, k) != Some(j))
    ensures k in r && r[k] == factory
    ensures forall j :: j in r && j != k ==> r[j] == entries[j]
  {
    (match Lru.Evicted(order, k)
     case None => entries
     case Some(e) => entries - {e})[k := factory]
  }

  /** A lookup hit, and an insertion of a factory under its own key, both keep the cache's invariant. */
  lemma PutKeepsCacheState(order: seq<Key>, entries: map<Key, ConnectionFactory>, accesses: seq<Key>,
                           k: Key, factory: ConnectionFactory)
    requires CacheState(order, entries, accesses)
    requires factory.CacheKey() == k
    requires k in entries ==> factory == entries[k]
    ensures CacheState(Lru.Put(order, k), PutEntry(order, entries, k, factory), accesses + [k])
    ensures k in entries ==> PutEntry(order, entries, k, factory) == entries
  {
    Lru.PutKeepsMostRecent(order, accesses, k);
    Lru.PutMembers(order, k);
  }

  /** The cache never holds more than `Capacity` factories. */
  lemma CacheStateBounded(order: seq<Key>, entries: map<Key, ConnectionFactory>, accesses: seq<Key>)
    requires CacheState(order, entries, accesses)
    ensures |entries| <= Lru.Capacity
  {
    Lru.DistinctCardinality(order);
    assert entries.Keys == set x | x in order;
  }

  /** Different coordinates are never served the same factory. */
  lemma CachedFactoriesDistinct(order: seq<Key>, entries: map<Key, ConnectionFactory>, accesses: seq<Key>,
                                k1: Key, k2: Key)
    requires CacheState(order, entries, accesses)
    requires k1 in entries && k2 in entries && k1 != k2
    ensures entries[k1] != entries[k2]
  {
  }

  /** The static `factoryCache`. */
  class FactoryCache {
    /** The cached keys, least recently used first. */
    var order: seq<Key>
    var entries: map<Key, ConnectionFactory>
    /** Every key the cache was asked for, oldest first: each call is one access. */
    ghost var accesses: seq<Key>

    ghost predicate Valid()
      reads this
    {
      CacheState(order, entries, accesses)
    }

    constructor ()
      ensures Valid() && order == [] && entries == map[] && accesses == []
    {
      order := [];
      entries := map[];
      accesses := [];
    }

    /**
     * `getConnectionFactory(host, port, databaseName, schema)`: on a hit the
     * cached factory, whatever `schema` says; otherwise a new factory for the
     * four arguments, inserted after dropping the least recently used entry
     * if the cache is full. Either way the key becomes the most recently used.
     */
    method GetConnectionFactory(host: string, port: Int32, databaseName: string, schema: string)
      returns (factory: ConnectionFactory)
      requires Valid()
      modifies this
      ensures Valid() && |entries| <= Lru.Capacity
      ensures var k := Key(host, port, databaseName);
        && factory.CacheKey() == k
        && k in entries && entries[k] == factory
        && accesses == old(accesses) + [k]
        && order == Lru.Put(old(order), k)
        && entries == PutEntry(old(order), old(entries), k, factory)
      ensures var k := Key(host, port, databaseName);
        k in old(entries) ==> factory == old(entries)[k]
      ensures var k := Key(host, port, databaseName);
        var e := Lru.Evicted(old(order), k);
        e.Some? ==> forall x :: x in old(order) && x != e.value ==>
          Lru.LastAccess(old(accesses), e.value) < Lru.LastAccess(old(accesses), x)
      ensures var k := Key(host, port, databaseName);
        k !in old(entries) ==> fresh(factory) && factory.schema == schema && factory.userConnections == map[]
    {
      var k := Key(host, port, databaseName);
      if Lru.Evicted(order, k).Some? {
        Lru.EvictsLeastRecent(order, accesses, k);
      }
      if k in entries {
        // get: a hit becomes the most recently used entry
        factory := entries[k];
        PutKeepsCacheState(order, entries, accesses, k, factory);
        order := Lru.Put(order, k);
        accesses := accesses + [k];
        CacheStateBounded(order, entries, accesses);
        return;
      }
      factory := new ConnectionFactory(host, port, databaseName, schema);
      // put: evict the least recently used entry when full, insert as most recently used
      PutKeepsCacheState(order, entries, accesses, k, factory);
      entries := PutEntry(order, entries, k, factory);
      order := Lru.Put(order, k);
      accesses := accesses + [k];
      CacheStateBounded(order, entries, accesses);
    }
  }
}
