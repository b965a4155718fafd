/** The data model shared by every component: samples, machine tables, the
    storage they live in, and the HTTP-level outcomes of the endpoints. */
module Telemetry {

  /** A column that may hold SQL NULL, a query that may find no row, or a
      client value that may fail to parse. */
  datatype Option<T> = None | Some(value: T)

  /** A nullable reading as the chart reports it: NULL becomes 0.0. */
  function OrZero(x: Option<real>): (r: real)
    ensures x.Some? ==> r == x.value
    ensures x.None? ==> r == 0.0
  {
    match x
    case Some(v) => v
    case None => 0.0
  }

  /** The HTTP errors the endpoints raise: 400 for a bad table name, shift
      kind or time format, 404 when a window holds no data, and 500 for any
      exception caught while talking to storage. */
  datatype Error = InvalidTable | InvalidShift | InvalidTimeFormat | NotFound | ServerError

  datatype Result<+T> = Ok(value: T) | Err(error: Error)

  /** A value of the `timestamp` column: whole seconds on the Asia/Taipei
      wall clock (the column is a DATETIME without time zone). */
  type Instant = int

  /** One row of a machine table. Every measured column may be NULL in the
      database, so each is an `Option`. */
  datatype Sample = Sample(
    timestamp: Instant,
    voltage: Option<real>,
    current: Option<real>,
    frequency: Option<real>,
    pf: Option<real>,
    watt: Option<real>,
    totalWattHours: Option<real>)

  /** A machine table: its rows in storage order. */
  type Table = seq<Sample>

  /** Rows are stored in order of strictly increasing timestamps. Distinct
      timestamps alone already make the row picked by `ORDER BY timestamp
      ... LIMIT 1` determined; this stronger form also makes storage order
      the order `ORDER BY timestamp` returns. */
  predicate Chronological(t: Table) {
    forall i, j :: 0 <= i < j < |t| ==> t[i].timestamp < t[j].timestamp
  }

  /** The database as the server sees it: either the connection pool could
      not hand out a connection, or a set of named tables. */
  datatype Storage = Down | Up(tables: map<string, Table>)

  /** Reading a table: an unavailable pool or a table missing from the
      database both end as an exception, which every endpoint turns into 500. */
  function Lookup(s: Storage, name: string): (r: Result<Table>)
    ensures r.Ok? <==> s.Up? && name in s.tables
    ensures r.Ok? ==> r.value == s.tables[name]
    ensures r.Err? ==> r.error == ServerError
  {
    if s.Up? && name in s.tables then Ok(s.tables[name]) else Err(ServerError)
  }
}
