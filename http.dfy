/**
 * What the HTTP handlers share: the request's query string, the optional
 * integer parameters read from it, and the response (a status code and a
 * JSON body holding either an error message or the data).
 */
module Http {
  import opened Wrappers
  import opened Errors
  import Decimal

  /** A URL's parsed query: each key with its values, in order. */
  type Query = map<string, seq<string>>

  /** `url.Values.Get`: the key's first value, or "" when it has none. */
  function Get(q: Query, key: string): string {
    if key in q && |q[key]| > 0 then q[key][0] else ""
  }

  const StatusOK: int := 200
  const StatusCreated: int := 201
  const StatusBadRequest: int := 400
  const StatusInternalServerError: int := 500

  /** A JSON body: an error message written out, the text of an error value, or the payload. */
  datatype Body<T> = Message(text: string) | ErrorText(err: Error) | Data(value: T)

  datatype Response<T> = Response(status: int, body: Body<T>)

  /** The parameter is unset or reads as an integer. */
  predicate Parses(q: Query, key: string) {
    Get(q, key) == "" || Decimal.Atoi(Get(q, key)).Some?
  }

  /** `v` is what the parameter says: unset when empty, else its integer value. */
  predicate ParsedAs(q: Query, key: string, v: Option<int>) {
    if Get(q, key) == "" then v.None? else v == Decimal.Atoi(Get(q, key))
  }

  /**
   * An optional integer parameter: an empty value leaves it unset, any
   * other value must satisfy `strconv.Atoi`, else the handler's `message`.
   */
  function OptionalInt(q: Query, key: string, message: string): (r: Result<Option<int>, string>)
    ensures r.Ok? <==> Parses(q, key)
    ensures r.Ok? ==> ParsedAs(q, key, r.value)
    ensures r.Err? ==> r.error == message
  {
    var s := Get(q, key);
    if s == "" then Ok(None)
    else match Decimal.Atoi(s)
      case None => Err(message)
      case Some(v) => Ok(Some(v))
  }

  /** The query a client sends for an optional integer: the key with its decimal value, or nothing. */
  function WithInt(q: Query, key: string, v: Option<int>): Query {
    if v.Some? then q[key := [Decimal.FormatInt(v.value)]] else q - {key}
  }

  /** An integer a client writes into the query reads back unchanged. */
  lemma OptionalIntRoundTrip(q: Query, key: string, v: Option<int>, message: string)
    requires v.Some? ==> Decimal.MinInt <= v.value <= Decimal.MaxInt
    ensures OptionalInt(WithInt(q, key, v), key, message) == Ok(v)
  {
    if v.Some? {
      Decimal.AtoiOfFormatInt(v.value);
    }
  }
}
