/**
 * The page handler `index()`: it takes the first endpoint the discovery call
 * returned, queries the latest sensor rows there, shapes them, and turns any
 * exception on the way into a plain error reply instead of the table.
 */
module Handler {
  import opened Results
  import opened Shaping
  import Timestamp

  /** The query the handler sends: the ten newest rows of the sensor table. */
  const QueryString: string := "SELECT * FROM \"EnvironmentalMonitoring\".\"SensorData\" ORDER BY time DESC LIMIT 10"

  const ErrorPrefix: string := "An error occurred: "

  /**
   * What the handler sends back: the page rendered from the records, or the
   * error text.
   */
  datatype Reply<F> = Page(rows: seq<Record<F>>) | ErrorText(body: string)

  /** `response['Endpoints'][0]['Address']`: the first address, or the IndexError of an empty list. */
  function FirstEndpoint(addresses: seq<string>): (r: Result<string, string>)
    ensures r.Ok? <==> addresses != []
    ensures r.Ok? ==> r.value == addresses[0]
    ensures r.Err? ==> r.error == Message(IndexError)
  {
    if addresses == [] then Err(Message(IndexError)) else Ok(addresses[0])
  }

  function EndpointUrl(address: string): string { "https://" + address }

  /**
   * Everything inside the `try`, with the message of the exception it ends
   * in. `discovered` is what endpoint discovery returned (the addresses, or
   * the message of the exception it raised); `query` is the query call made
   * against an endpoint URL with a query text (the rows, or the message).
   */
  function Fetch<F>(discovered: Result<seq<string>, string>,
                    query: (string, string) -> Result<seq<seq<Cell>>, string>,
                    measure: string -> Result<F, string>): Result<seq<Record<F>>, string>
  {
    match discovered
    case Err(m) => Err(m)
    case Ok(addresses) =>
      match FirstEndpoint(addresses)
      case Err(m) => Err(m)
      case Ok(address) =>
        match query(EndpointUrl(address), QueryString)
        case Err(m) => Err(m)
        case Ok(rows) =>
          match Shape(rows, measure, Timestamp.Reformat)
          case Err(f) => Err(Message(f))
          case Ok(records) => Ok(records)
  }

  /** The `except` clause: an exception becomes the error text, and no rows are rendered. */
  function Respond<F>(r: Result<seq<Record<F>>, string>): (reply: Reply<F>)
    ensures reply.Page? <==> r.Ok?
    ensures r.Ok? ==> reply.rows == r.value
    ensures r.Err? ==> reply.body == ErrorPrefix + r.error
  {
    match r
    case Ok(records) => Page(records)
    case Err(m) => ErrorText(ErrorPrefix + m)
  }

  /** The handler, step by step as it runs. */
  method Index<F>(discovered: Result<seq<string>, string>,
                  query: (string, string) -> Result<seq<seq<Cell>>, string>,
                  measure: string -> Result<F, string>) returns (reply: Reply<F>)
    ensures reply == Respond(Fetch(discovered, query, measure))
  {
    if discovered.Err? {
      return ErrorText(ErrorPrefix + discovered.error);
    }
    var endpoint := FirstEndpoint(discovered.value);
    if endpoint.Err? {
      return ErrorText(ErrorPrefix + endpoint.error);
    }
    var response := query(EndpointUrl(endpoint.value), QueryString);
    if response.Err? {
      return ErrorText(ErrorPrefix + response.error);
    }
    var rows := ShapeRows(response.value, measure, Timestamp.Reformat);
    if rows.Err? {
      return ErrorText(ErrorPrefix + Message(rows.error));
    }
    return Page(rows.value);
  }

  // ---------------------------------------------------------------------------
  // Properties of the handler

  /** With no endpoint discovered the handler fails with the IndexError, whatever the query would return. */
  lemma NoEndpointNoQuery<F>(query: (string, string) -> Result<seq<seq<Cell>>, string>, measure: string -> Result<F, string>)
    ensures Respond(Fetch(Ok([]), query, measure)) == ErrorText(ErrorPrefix + Message(IndexError))
  {
  }

  /**
   * Only the first discovered address is queried, with the fixed query text:
   * two query calls that agree on that one request give the same reply.
   */
  lemma OnlyFirstEndpointQueried<F>(addresses: seq<string>,
                                    query1: (string, string) -> Result<seq<seq<Cell>>, string>,
                                    query2: (string, string) -> Result<seq<seq<Cell>>, string>,
                                    measure: string -> Result<F, string>)
    requires addresses != []
    requires query1("https://" + addresses[0], QueryString) == query2("https://" + addresses[0], QueryString)
    ensures Fetch(Ok(addresses), query1, measure) == Fetch(Ok(addresses), query2, measure)
  {
  }

  /**
   * A rendered page holds one record per returned row, in the order the
   * rows came back, each the shaping of its row.
   */
  lemma PageHoldsEveryRow<F>(discovered: Result<seq<string>, string>,
                             query: (string, string) -> Result<seq<seq<Cell>>, string>,
                             measure: string -> Result<F, string>)
    requires Respond(Fetch(discovered, query, measure)).Page?
    ensures discovered.Ok? && discovered.value != []
    ensures var response := query("https://" + discovered.value[0], QueryString);
      response.Ok? &&
      |Respond(Fetch(discovered, query, measure)).rows| == |response.value| &&
      forall k :: 0 <= k < |response.value| ==>
        ShapeRow(response.value[k], measure, Timestamp.Reformat) == Ok(Respond(Fetch(discovered, query, measure)).rows[k])
  {
    var rows := query("https://" + discovered.value[0], QueryString).value;
    ShapeInOrder(rows, measure, Timestamp.Reformat);
  }

  /**
   * The handler renders a page exactly when discovery returned at least one
   * address, the query against the first of them returned rows, and every
   * one of those rows shapes; in every other case it sends the error text.
   */
  lemma PageExactly<F>(discovered: Result<seq<string>, string>,
                       query: (string, string) -> Result<seq<seq<Cell>>, string>,
                       measure: string -> Result<F, string>)
    ensures Respond(Fetch(discovered, query, measure)).Page? <==>
      discovered.Ok? && discovered.value != [] &&
      query("https://" + discovered.value[0], QueryString).Ok? &&
      forall k :: 0 <= k < |query("https://" + discovered.value[0], QueryString).value| ==>
        ShapeRow(query("https://" + discovered.value[0], QueryString).value[k], measure, Timestamp.Reformat).Ok?
    ensures var reply := Respond(Fetch(discovered, query, measure));
      reply.ErrorText? ==> |ErrorPrefix| <= |reply.body| && reply.body[..|ErrorPrefix|] == ErrorPrefix
  {
    if discovered.Ok? && discovered.value != [] && query("https://" + discovered.value[0], QueryString).Ok? {
      ShapeSucceeds(query("https://" + discovered.value[0], QueryString).value, measure, Timestamp.Reformat);
    }
  }

  /**
   * When the query returns rows the step cannot shape, the reply is the
   * error text carrying the message of the first failing cell, and no page.
   */
  lemma ShapingFailureReply<F>(addresses: seq<string>,
                               query: (string, string) -> Result<seq<seq<Cell>>, string>,
                               measure: string -> Result<F, string>)
    requires addresses != [] && query("https://" + addresses[0], QueryString).Ok?
    requires Shape(query("https://" + addresses[0], QueryString).value, measure, Timestamp.Reformat).Err?
    ensures var rows := query("https://" + addresses[0], QueryString).value;
      exists k, i :: 0 <= k < |rows| && 0 <= i < |rows[k]| && ShapeCell(i, rows[k][i], measure, Timestamp.Reformat).Err? &&
        Respond(Fetch(Ok(addresses), query, measure)) ==
          ErrorText(ErrorPrefix + Message(ShapeCell(i, rows[k][i], measure, Timestamp.Reformat).error)) &&
        (forall j :: 0 <= j < k ==> ShapeRow(rows[j], measure, Timestamp.Reformat).Ok?) &&
        (forall j :: 0 <= j < i ==> ShapeCell(j, rows[k][j], measure, Timestamp.Reformat).Ok?)
  {
    var rows := query("https://" + addresses[0], QueryString).value;
    ShapeFailure(rows, measure, Timestamp.Reformat);
    var k :| 0 <= k < |rows| && ShapeRow(rows[k], measure, Timestamp.Reformat) == Err(Shape(rows, measure, Timestamp.Reformat).error) &&
      forall j :: 0 <= j < k ==> ShapeRow(rows[j], measure, Timestamp.Reformat).Ok?;
    RowFailure(rows[k], measure, Timestamp.Reformat);
    var i :| 0 <= i < |rows[k]| && ShapeCell(i, rows[k][i], measure, Timestamp.Reformat) == Err(ShapeRow(rows[k], measure, Timestamp.Reformat).error) &&
      forall j :: 0 <= j < i ==> ShapeCell(j, rows[k][j], measure, Timestamp.Reformat).Ok?;
  }

  /**
   * One cell the step cannot shape (a malformed stamp, a measure that is not
   * a number, a seventh cell) turns the whole reply into the error text.
   */
  lemma BadCellReply<F>(addresses: seq<string>,
                        query: (string, string) -> Result<seq<seq<Cell>>, string>,
                        measure: string -> Result<F, string>, k: nat, i: nat)
    requires addresses != [] && query("https://" + addresses[0], QueryString).Ok?
    requires k < |query("https://" + addresses[0], QueryString).value|
    requires i < |query("https://" + addresses[0], QueryString).value[k]|
    requires ShapeCell(i, query("https://" + addresses[0], QueryString).value[k][i], measure, Timestamp.Reformat).Err?
    ensures Respond(Fetch(Ok(addresses), query, measure)).ErrorText?
  {
    CellFailureAborts(query("https://" + addresses[0], QueryString).value, measure, Timestamp.Reformat, k, i);
  }

  /** A returned row with more than six cells turns the whole reply into the error text. */
  lemma LongRowReply<F>(addresses: seq<string>,
                        query: (string, string) -> Result<seq<seq<Cell>>, string>,
                        measure: string -> Result<F, string>, k: nat)
    requires addresses != [] && query("https://" + addresses[0], QueryString).Ok?
    requires k < |query("https://" + addresses[0], QueryString).value|
    requires |query("https://" + addresses[0], QueryString).value[k]| > |ColumnNames|
    ensures Respond(Fetch(Ok(addresses), query, measure)).ErrorText?
  {
    LongRowAborts(query("https://" + addresses[0], QueryString).value, measure, Timestamp.Reformat, k);
  }
}
