/**
  The `GET /gastos` handler: both query parameters must be present and
  non-empty, otherwise the answer is 400; with both present the lookup runs
  and its outcome becomes 404 (not found) or 200 (the amounts).
 */
module GastosRoute {

  import opened Wrappers
  import opened Gastos

  /** The two query parameters; `None` is a parameter absent from the URL. */
  datatype Query = Query(cidade: Option<string>, ano: Option<string>)

  /** The outcomes of a request. `Unhandled` is the rejected `getGastos`
      promise, which the async handler does not catch; the handler itself
      sends no response for it. */
  datatype Resp =
    | BadRequest(error: string)
    | NotFound(error: string)
    | Ok(body: Gasto)
    | Unhandled

  const RequiredMessage: string := "cidade e ano são obrigatórios"
  const NotFoundMessage: string := "Dados não encontrados"

  /** The HTTP status the handler sets, if it answers at all. */
  function Status(r: Resp): Option<int> {
    match r
    case BadRequest(_) => Some(400)
    case NotFound(_) => Some(404)
    case Ok(_) => Some(200)
    case Unhandled => None
  }

  /** JavaScript truthiness of a query value: present and not the empty string. */
  predicate Truthy(p: Option<string>) {
    p.Some? && p.value != ""
  }

  predicate Valid(q: Query) {
    Truthy(q.cidade) && Truthy(q.ano)
  }

  /** The answer to a request, as a function of the query and the table file. */
  function Respond(q: Query, file: CsvFile): (r: Resp)
    ensures r == BadRequest(RequiredMessage) <==> !Valid(q)
    ensures Valid(q) && file.ParseError? ==> r == Unhandled
    ensures Valid(q) && file.Readable? ==>
      (r == NotFound(NotFoundMessage) <==> Lookup(file.rows, q.cidade.value, q.ano.value).None?)
    ensures r.Ok? ==>
      Valid(q) && file.Readable? && Lookup(file.rows, q.cidade.value, q.ano.value) == Some(r.body)
    ensures Valid(q) && file.Readable? && Lookup(file.rows, q.cidade.value, q.ano.value).Some? ==>
      r == Ok(Lookup(file.rows, q.cidade.value, q.ano.value).value)
  {
    if !Valid(q) then BadRequest(RequiredMessage)
    else match file
      case ParseError => Unhandled
      case Readable(rows) =>
        match Lookup(rows, q.cidade.value, q.ano.value)
        case None => NotFound(NotFoundMessage)
        case Some(g) => Ok(g)
  }

  /** The handler itself: validate, then await `getGastos` and branch on it. */
  method Handle(q: Query, file: CsvFile) returns (r: Resp)
    ensures r == Respond(q, file)
  {
    var cidade, ano := q.cidade, q.ano;
    if !Truthy(cidade) || !Truthy(ano) {
      return BadRequest(RequiredMessage);
    }
    var p := GetGastos(file, cidade.value, ano.value);
    match p
    case Rejected =>
      r := Unhandled;
    case Resolved(data) =>
      if data.None? {
        return NotFound(NotFoundMessage);
      }
      r := Ok(data.value);
  }

  /** A missing or empty parameter is answered with 400 before the file is
      touched: the answer is the same whatever the file holds, even a parser error. */
  lemma InvalidQueryIgnoresFile(q: Query, file: CsvFile, file': CsvFile)
    requires !Valid(q)
    ensures Respond(q, file) == Respond(q, file') == BadRequest(RequiredMessage)
    ensures Status(Respond(q, file)) == Some(400)
  {
  }

  /** The three-way status mapping for a valid query over a readable file. */
  lemma StatusOfValidQuery(q: Query, rows: seq<Row>)
    requires Valid(q)
    ensures Status(Respond(q, Readable(rows))) ==
      if Lookup(rows, q.cidade.value, q.ano.value).None? then Some(404) else Some(200)
    ensures Respond(q, Readable(rows)).Ok? ==>
      Some(Respond(q, Readable(rows)).body) == Lookup(rows, q.cidade.value, q.ano.value)
  {
  }

  /** Scenario: a table holding São Paulo's 2024 row answers with its amounts. */
  lemma SaoPauloScenario()
    ensures Respond(Query(Some("São Paulo"), Some("2024")),
                    Readable([Row("São Paulo", "2024", "5000000", "3000000", "2000000")]))
         == Ok(Gasto(JsNumber.Int(5000000), JsNumber.Int(3000000), JsNumber.Int(2000000)))
  {
    assert JsNumber.Zeros(6) == "000000" && JsNumber.Pow10(6) == 1000000;
    assert "5000000" == ['5'] + JsNumber.Zeros(6);
    assert "3000000" == ['3'] + JsNumber.Zeros(6);
    assert "2000000" == ['2'] + JsNumber.Zeros(6);
    JsNumber.DigitThenZeros('5', 6);
    JsNumber.DigitThenZeros('3', 6);
    JsNumber.DigitThenZeros('2', 6);
  }

  /** Scenario: a city absent from the table is answered with 404. */
  lemma AtlantisScenario()
    ensures Respond(Query(Some("Atlantis"), Some("2024")),
                    Readable([Row("São Paulo", "2024", "5000000", "3000000", "2000000")]))
         == NotFound(NotFoundMessage)
  {
  }

  /** Scenario: a request without parameters is answered with 400. */
  lemma NoParametersScenario(file: CsvFile)
    ensures Respond(Query(None, None), file) == BadRequest(RequiredMessage)
  {
  }
}
