# ConnectionFactory: a two-level JDBC connection cache

This project models `connection.ConnectionFactory` from a small Java JDBC
example. The class caches connections at two levels:

- **The factory cache.** A static least-recently-used map holds at most 10
  factories. It is keyed by `(host, port, databaseName)`.
  `getConnectionFactory` returns the cached factory on a hit and ignores its
  `schema` argument. On a miss it builds a new factory and inserts it. If
  the map is full, the least recently used entry is evicted first.
- **The credential store.** Each factory maps a username to the password
  that opened its connection and to that connection. `getConnection` returns
  the stored connection when the password matches. It returns `null` when
  the username is bound to another password. For an unknown username it
  connects once, stores the connection and registers one shutdown hook.
  `validateConnection` probes the stored connection. On a confirmed-invalid
  answer it closes the connection if it is still open and removes the entry.

Each factory derives its connection URL once, by string concatenation:
`jdbc:postgresql://host:port/databaseName?currentSchema=schema`.

Layout, one module per concern:

- `wrappers.dfy`: `Option`, which stands for Java's nullable results.
- `decimal.dfy`: Java `int` values and the decimal text that concatenation
  produces for them. Reading the text back gives the number.
- `url.dfy`: the URL derivation. A parser proves that the URL determines
  the coordinates, when the host has no `:` and the database name no `?`.
  Without that condition two coordinate sets can share a URL: host `a:1/b`
  on port 2 with database `c`, and host `a` on port 1 with database
  `b:2/c`.
- `jdbc.dfy`: the driver and the Java runtime, as oracle classes. Every
  answer of the database is a parameter. The classes record what the
  factory asked: the connect attempts, the closed handles and the
  registered shutdown hooks.
- `lru.dfy`: the cache's observable behaviour. The keys are kept as a
  sequence from least to most recently used. A history-based invariant
  proves that the cache always holds the most recently used keys.
- `credentials.dfy`: the credential store's two operations as pure state
  transitions, with the properties proved about them.
- `connection.dfy`: the classes `ConnectionFactory` and `FactoryCache`
  (the static `factoryCache`). Their methods change state in place and are
  proved to perform exactly the transitions above.

The four accessors `GetHost`, `GetPort`, `GetDatabaseName` and `GetSchema`
are functions that read `const` fields. Dafny functions cannot change
state, so none of them has side effects. The constructor's contract ties
the fields to its arguments, and `GetConnectionUrl`'s contract ties the URL
to the four accessors.

Three behaviours of the code that the model keeps as they are:

- `getConnection` returns `null` both for a password mismatch and for a
  failed connect. The model tags the two apart in `Credentials.GetResult`.
  `Credentials.Returned` maps both to the same `None`, and that is what
  `ConnectionFactory.GetConnection` returns.
- `validateConnection` removes the entry only after a confirmed-invalid
  probe whose `isClosed` and `close` calls do not throw. An exception from
  `isValid`, `isClosed` or `close` answers false and keeps the entry.
- The code has no locking. The model is sequential.

## Model

| member | source | states |
|---|---|---|
| Decimal.Digits | src/main/java/connection/ConnectionFactory.java:62 | the decimal text of a natural number is non-empty, all digits, and has no leading zero except for 0 itself |
| Decimal.DecimalString | src/main/java/connection/ConnectionFactory.java:62 | the text concatenated for the `Integer` port is non-empty and contains none of the URL separators `/`, `:`, `?` |
| Decimal.DigitsRoundTrip | src/main/java/connection/ConnectionFactory.java:62 | reading the digits back gives the number |
| Decimal.DecimalRoundTrip | src/main/java/connection/ConnectionFactory.java:62 | the port's text in the URL determines the port, negatives included |
| Url.Build | src/main/java/connection/ConnectionFactory.java:61-64 | the derived URL starts with the `jdbc:postgresql://` scheme |
| Url.UrlRoundTrip | src/main/java/connection/ConnectionFactory.java:61-64 | parsing the URL returns exactly the four constructor arguments, if the host has no `:` and the database name no `?` |
| Url.UrlDeterminesCoordinates | src/main/java/connection/ConnectionFactory.java:61-64 | two factories with different coordinates, under the same separator condition, get different URLs |
| Lru.Put | src/main/java/connection/ConnectionFactory.java:32-57 | a hit or an insert makes the key the most recently used. The cache stays free of repeats and within capacity 10. A hit keeps the size. An insert grows it by one, or keeps it at 10 when full |
| Lru.Evicted | src/main/java/connection/ConnectionFactory.java:57 | an insertion drops a key only when the key is new and the cache is full. The key dropped is a cached key other than the one inserted, at the least recently used end |
| Lru.PutMembers | src/main/java/connection/ConnectionFactory.java:57 | after a hit or an insert, the key is cached. Exactly the evicted key is gone and every other key stays |
| Lru.TouchKeepsMostRecent | src/main/java/connection/ConnectionFactory.java:36-40 | after a hit, the cache still holds exactly the most recently used keys, in recency order |
| Lru.InsertKeepsOlderLeft | src/main/java/connection/ConnectionFactory.java:57 | the key an insert evicts was used less recently than every key that stays |
| Lru.InsertKeepsMostRecent | src/main/java/connection/ConnectionFactory.java:56-57 | after an insert, with or without an eviction, the cache still holds exactly the most recently used keys |
| Lru.PutKeepsMostRecent | src/main/java/connection/ConnectionFactory.java:32-57 | every call keeps the invariant: at most 10 keys, in recency order, every evicted key older than every cached key, nothing evicted while not full |
| Lru.EvictsLeastRecent | src/main/java/connection/ConnectionFactory.java:22-57 | the key evicted when inserting into a full cache is the cached key whose last access is the oldest |
| Jdbc.Driver.Connect | src/main/java/connection/ConnectionFactory.java:84 | a connect call is recorded with its URL, username and password, and its outcome is the environment's reply |
| Jdbc.Driver.IsClosed | src/main/java/connection/ConnectionFactory.java:114 | `isClosed` answers from the driver's closed handles, or throws |
| Jdbc.Driver.Close | src/main/java/connection/ConnectionFactory.java:117 | `close` marks the handle closed. When it throws, whether the handle reports closed afterwards is the environment's choice |
| Jdbc.Runtime.AddShutdownHook | src/main/java/connection/ConnectionFactory.java:152 | registering a hook appends exactly that hook |
| Credentials.Get | src/main/java/connection/ConnectionFactory.java:70-97 | the driver is asked to connect exactly when the username is unknown. A connection is handed out only when the username is stored with that connection and the given password afterwards. Only a new connection is stored and given a hook, and every other outcome leaves the store and the hooks unchanged |
| Credentials.Returned | src/main/java/connection/ConnectionFactory.java:75-97 | the caller gets no handle exactly on a password mismatch or a failed connect |
| Credentials.GetReusesHandle | src/main/java/connection/ConnectionFactory.java:70-75 | a stored username with its own password gets the stored handle. There is no connect attempt, no store change and no new hook, whatever the driver would answer |
| Credentials.MismatchKeepsEntry | src/main/java/connection/ConnectionFactory.java:72-80 | a stored username with another password gets no handle and there is no connect attempt. The entry is untouched, so the original password still gets the original handle |
| Credentials.UnknownUserConnects | src/main/java/connection/ConnectionFactory.java:82-97 | an unknown username makes one connect attempt. Success stores exactly (password, handle), registers one hook for it and returns it. Failure returns no handle and changes neither the store nor the hooks |
| Credentials.RepeatedGetIsCached | src/main/java/connection/ConnectionFactory.java:70-90 | a second call with the same credentials returns the identical handle without a second connect |
| Credentials.GetKeepsEntries | src/main/java/connection/ConnectionFactory.java:70-92 | `getConnection` never changes or removes an entry and adds only the requested username, so the first password for a username stays |
| Credentials.Validate | src/main/java/connection/ConnectionFactory.java:103-128 | an answer of true changes nothing. The only store change is removing the username's entry, and only once its connection reports closed. No closed connection is ever reopened |
| Credentials.ValidateUnknown | src/main/java/connection/ConnectionFactory.java:109-110 | an unknown username answers false and changes nothing |
| Credentials.ValidIsIdempotent | src/main/java/connection/ConnectionFactory.java:111-112 | a handle that probes valid answers true and changes nothing, so asking again gives the same answer |
| Credentials.InvalidIsClosedAndRemoved | src/main/java/connection/ConnectionFactory.java:113-120 | on a confirmed-invalid probe without exceptions, the handle ends closed and only that username's entry is removed. The answer is false, and the next `getConnection` for the user connects afresh |
| Credentials.ProbeErrorKeepsEntry | src/main/java/connection/ConnectionFactory.java:111-126 | an exception from `isValid`, `isClosed` or `close` answers false and keeps the entry. After an `isValid` or `isClosed` exception the closed handles are as they were. A `close` that throws may at most have closed that one handle |
| Credentials.ValidateChangesAtMostOneEntry | src/main/java/connection/ConnectionFactory.java:103-128 | the answer is true exactly for a stored handle that probes valid. The only changes possible, both after a confirmed-invalid probe, are removing that username and closing its handle |
| Credentials.GetKeepsCovered | src/main/java/connection/ConnectionFactory.java:84-87 | every stored connection keeps a registered shutdown hook for its handle and username |
| Credentials.ValidateKeepsCovered | src/main/java/connection/ConnectionFactory.java:113-120 | validation registers nothing and every remaining connection keeps its hook |
| Connection.ConnectionFactory.constructor | src/main/java/connection/ConnectionFactory.java:61-64 | the fields hold the constructor arguments unchanged, and the credential store starts empty |
| Connection.ConnectionFactory.GetHost | src/main/java/connection/ConnectionFactory.java:130-132 | the host returned is the host that reading the URL back yields, when the host has no `:` and the database name no `?` |
| Connection.ConnectionFactory.GetPort | src/main/java/connection/ConnectionFactory.java:134-136 | the port returned is the port that reading the URL back yields, under the same condition |
| Connection.ConnectionFactory.GetDatabaseName | src/main/java/connection/ConnectionFactory.java:138-140 | the database name returned is the one that reading the URL back yields, under the same condition |
| Connection.ConnectionFactory.GetSchema | src/main/java/connection/ConnectionFactory.java:142-144 | the schema returned is the one that reading the URL back yields, under the same condition |
| Connection.ConnectionFactory.UrlFacts | src/main/java/connection/ConnectionFactory.java:61-64 | the URL a factory derives reads back as its own four coordinates, when the host has no `:` and the database name no `?` |
| Connection.ConnectionFactory.GetConnectionUrl | src/main/java/connection/ConnectionFactory.java:146-148 | the URL equals the scheme followed by host, `:`, port, `/`, database name, `?currentSchema=` and schema, as the accessors return them |
| Connection.ConnectionFactory.GetConnection | src/main/java/connection/ConnectionFactory.java:66-101 | returns, stores, connects and registers hooks exactly as `Credentials.Get` says. The connect attempt uses the factory's URL. Stored connections stay covered by hooks |
| Connection.ConnectionFactory.ValidateConnection | src/main/java/connection/ConnectionFactory.java:103-128 | answers, removes and closes exactly as `Credentials.Validate` says, and never connects |
| Connection.ConnectionFactory.EnsureConnectionExit | src/main/java/connection/ConnectionFactory.java:150-166 | registers exactly one shutdown hook for the handle and username |
| Connection.KeyByCoordinates | src/main/java/connection/ConnectionFactory.java:36-57 | two factories share a cache key exactly when their host, port and database name agree, whatever their schemas |
| Connection.PutEntry | src/main/java/connection/ConnectionFactory.java:57 | after `put`, the key maps to the new factory, the evicted key is gone, and every other entry stays with its factory |
| Connection.PutKeepsCacheState | src/main/java/connection/ConnectionFactory.java:36-57 | a hit, or an insert of a factory under its own key, keeps the cache's invariant, and a hit leaves the entries unchanged |
| Connection.CacheStateBounded | src/main/java/connection/ConnectionFactory.java:22-32 | the cache never holds more than 10 factories |
| Connection.CachedFactoriesDistinct | src/main/java/connection/ConnectionFactory.java:36-57 | different coordinates are never served the same factory |
| Connection.FactoryCache.constructor | src/main/java/connection/ConnectionFactory.java:32 | the cache starts empty and satisfies its invariant |
| Connection.FactoryCache.GetConnectionFactory | src/main/java/connection/ConnectionFactory.java:34-59 | a hit returns the cached factory unchanged, keeps its original schema and ignores the `schema` argument. Afterwards the key maps to the returned factory, so a second call with the same coordinates returns the same factory. A miss returns a fresh factory for the four arguments with an empty store. Either way the key becomes the most recently used, and a miss on a full cache evicts exactly the least recently used key. The invariant and the bound of 10 hold after every call |

## Left out

- Loading the driver class with `Class.forName` and calling `System.exit(1)` when it is missing (lines 44-54). This is a one-time environment check that ends the process.
- Running the shutdown hooks at exit (lines 152-164). The model records each registration. It does not model the close attempts at teardown.
- The driver itself: `DriverManager.getConnection`, `isValid(3000)`, `isClosed` and `close` are foreign calls. Their outcomes are parameters, and so is whether a connection whose `close` threw reports closed afterwards, on which JDBC promises nothing. The 3000 ms timeout has no timing meaning in the model.
- Logging through slf4j.
- The internals of Commons `LRUMap` and `MultiKey`. Only their observable behaviour is modelled: lookup by value, capacity 10, and a hit or a put refreshing recency.
- Concurrency. The source has no locking, and the model is sequential.
- `null` arguments. The model takes non-null strings and a Java `int` port. In the source:
  - A `null` host, port, database name or schema appears as the text `null` in the URL. `MultiKey` keeps the `null` itself, so host `null` and host `"null"` give the same URL but two keys and two factories.
  - A `null` password passed for a username stored with a non-null password fails `equals` at line 74, takes the mismatch path and returns `null` at line 79.
  - A first successful connect with a `null` password stores `null`. From then on every `getConnection` for that username throws an uncaught `NullPointerException` at line 74, whatever password it passes.
- Closing a factory's connections when the cache evicts it. The source does not do it, so the model does not either. An evicted factory's connections are left to their shutdown hooks.
- Shutdown hooks are never unregistered. A connection removed by `validateConnection` keeps its hook, and a fresh connect for the same user adds another one. The model records this as it is.
- `ConnectionLauncher.java` is not part of this model. It is a demo that runs SQL queries against a live database.
