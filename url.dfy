/**
 * The JDBC connection URL a factory derives, once, from its four
 * coordinates, and a reader that takes such a URL apart again.
 */
module Url {
  import opened Wrappers
  import opened Decimal

  const Scheme: string := "jdbc:postgresql://"
  const SchemaParameter: string := "currentSchema="

  /** The four constructor arguments of a factory. */
  datatype Coordinates = Coordinates(host: string, port: Int32, databaseName: string, schema: string)

  /** The URL by plain concatenation: `jdbc:postgresql://host:port/databaseName?currentSchema=schema`. */
  function Build(host: string, port: Int32, databaseName: string, schema: string): (url: string)
    ensures |url| > |Scheme| && url[..|Scheme|] == Scheme
  {
    Scheme + host + ":" + DecimalString(port) + "/" + databaseName + "?" + SchemaParameter + schema
  }

  /** `s` cut at the first occurrence of `c`, which is dropped; `None` when `c` does not occur. */
  function Split(s: string, c: char): (r: Option<(string, string)>)
    ensures r.None? <==> c !in s
    ensures r.Some? ==> c !in r.value.0 && s == r.value.0 + [c] + r.value.1
  {
    if s == [] then None
    else if s[0] == c then Some(([], s[1..]))
    else match Split(s[1..], c)
      case None => None
      case Some(parts) => Some(([s[0]] + parts.0, parts.1))
  }

  lemma {:induction false} SplitAtFirst(a: string, c: char, b: string)
    requires c !in a
    ensures Split(a + [c] + b, c) == Some((a, b))
  {
    var s := a + [c] + b;
    if a == [] {
      assert s[1..] == b;
    } else {
      assert s[1..] == a[1..] + [c] + b;
      SplitAtFirst(a[1..], c, b);
      assert [a[0]] + a[1..] == a;
    }
  }

  /** Reads the coordinates back out of a URL of the shape `Build` produces. */
  function Parse(url: string): Option<Coordinates> {
    if |url| < |Scheme| || url[..|Scheme|] != Scheme then None
    else ParseHost(url[|Scheme|..])
  }

  function ParseHost(s: string): Option<Coordinates> {
    match Split(s, ':')
    case None => None
    case Some(parts) => ParsePort(parts.0, parts.1)
  }

  function ParsePort(host: string, s: string): Option<Coordinates> {
    match Split(s, '/')
    case None => None
    case Some(parts) =>
      match ParseDecimal(parts.0)
      case None => None
      case Some(port) =>
        if -0x8000_0000 <= port < 0x8000_0000 then ParseDatabase(host, port, parts.1) else None
  }

  function ParseDatabase(host: string, port: Int32, s: string): Option<Coordinates> {
    match Split(s, '?')
    case None => None
    case Some(parts) =>
      var rest := parts.1;
      if |rest| < |SchemaParameter| || rest[..|SchemaParameter|] != SchemaParameter then None
      else Some(Coordinates(host, port, parts.0, rest[|SchemaParameter|..]))
  }

  /*
   * The text after the scheme, `host:port/databaseName?currentSchema=schema`,
   * grouped from the right. `Build` is the definition of the URL; this
   * grouping is the same text (`BuildGrouped`), written so that each reader
   * lemma below peels off one separator and hands the rest, by name, to the
   * next one, which keeps every proof obligation small.
   */
  function AfterScheme(host: string, port: Int32, databaseName: string, schema: string): string {
    host + ":" + AfterHost(port, databaseName, schema)
  }

  function AfterHost(port: Int32, databaseName: string, schema: string): string {
    DecimalString(port) + "/" + AfterPort(databaseName, schema)
  }

  function AfterPort(databaseName: string, schema: string): string {
    databaseName + "?" + SchemaParameter + schema
  }

  lemma DatabaseRoundTrip(host: string, port: Int32, databaseName: string, schema: string)
    requires '?' !in databaseName
    ensures ParseDatabase(host, port, AfterPort(databaseName, schema)) == Some(Coordinates(host, port, databaseName, schema))
  {
    var rest := SchemaParameter + schema;
    assert AfterPort(databaseName, schema) == databaseName + ['?'] + rest;
    SplitAtFirst(databaseName, '?', rest);
    assert rest[..|SchemaParameter|] == SchemaParameter;
    assert rest[|SchemaParameter|..] == schema;
  }

  lemma PortRoundTrip(host: string, port: Int32, databaseName: string, schema: string)
    requires '?' !in databaseName
    ensures ParsePort(host, AfterHost(port, databaseName, schema)) == Some(Coordinates(host, port, databaseName, schema))
  {
    SplitAtFirst(DecimalString(port), '/', AfterPort(databaseName, schema));
    DecimalRoundTrip(port);
    DatabaseRoundTrip(host, port, databaseName, schema);
  }

  lemma HostRoundTrip(host: string, port: Int32, databaseName: string, schema: string)
    requires ':' !in host && '?' !in databaseName
    ensures ParseHost(AfterScheme(host, port, databaseName, schema)) == Some(Coordinates(host, port, databaseName, schema))
  {
    SplitAtFirst(host, ':', AfterHost(port, databaseName, schema));
    PortRoundTrip(host, port, databaseName, schema);
  }

  lemma ParseStripsScheme(rest: string)
    ensures Parse(Scheme + rest) == ParseHost(rest)
  {
    assert (Scheme + rest)[..|Scheme|] == Scheme;
    assert (Scheme + rest)[|Scheme|..] == rest;
  }

  /** The flat concatenation and the grouping the parser follows are the same text. */
  lemma BuildGrouped(host: string, port: Int32, databaseName: string, schema: string)
    ensures Build(host, port, databaseName, schema) == Scheme + AfterScheme(host, port, databaseName, schema)
  {
    var p, d := DecimalString(port), AfterPort(databaseName, schema);
    calc {
      Build(host, port, databaseName, schema);
      Scheme + host + ":" + p + "/" + databaseName + "?" + SchemaParameter + schema;
      Scheme + host + ":" + p + "/" + d;
      Scheme + host + ":" + AfterHost(port, databaseName, schema);
      Scheme + AfterScheme(host, port, databaseName, schema);
    }
  }

  /**
   * The URL determines the coordinates as long as the host has no `:` and
   * the database name no `?`, the separators that follow them.
   */
  lemma UrlRoundTrip(host: string, port: Int32, databaseName: string, schema: string)
    requires ':' !in host && '?' !in databaseName
    ensures Parse(Build(host, port, databaseName, schema)) == Some(Coordinates(host, port, databaseName, schema))
  {
    BuildGrouped(host, port, databaseName, schema);
    ParseStripsScheme(AfterScheme(host, port, databaseName, schema));
    HostRoundTrip(host, port, databaseName, schema);
  }

  /**
   * Two factories whose coordinates differ are handed different URLs, when
   * neither host has a `:` and neither database name a `?`.
   */
  lemma UrlDeterminesCoordinates(a: Coordinates, b: Coordinates)
    requires ':' !in a.host && '?' !in a.databaseName
    requires ':' !in b.host && '?' !in b.databaseName
    requires Build(a.host, a.port, a.databaseName, a.schema) == Build(b.host, b.port, b.databaseName, b.schema)
    ensures a == b
  {
    UrlRoundTrip(a.host, a.port, a.databaseName, a.schema);
    UrlRoundTrip(b.host, b.port, b.databaseName, b.schema);
  }
}
