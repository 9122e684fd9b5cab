/**
  `getGastos(cidade, ano)`: the rows of the spending table are collected in
  file order, the first row whose `cidade` and `ano` equal the query exactly
  is selected, and its three category amounts are converted to numbers.
 */
module Gastos {

  import opened Wrappers
  import opened JsNumber

  /** One parsed row of the spending table; every field is the raw cell text. */
  datatype Row = Row(cidade: string, ano: string, saude: string, educacao: string, transporte: string)

  /** The object resolved on a hit: the `Saúde`, `Educação` and `Transporte` amounts. */
  datatype Gasto = Gasto(saude: Number, educacao: Number, transporte: Number)

  /** What the parser stream reports for the table file: either it reaches
      its end, having delivered its rows in order, or it emits an error,
      which is the only failure the `error` listener on that stream sees. */
  datatype CsvFile = Readable(rows: seq<Row>) | ParseError

  /** How the promise returned by `getGastos` settles. */
  datatype Settled = Resolved(gasto: Option<Gasto>) | Rejected

  /** The `find` predicate: exact equality on both key fields. */
  predicate Matches(row: Row, cidade: string, ano: string) {
    row.cidade == cidade && row.ano == ano
  }

  /** The result object built from a selected row. */
  function Shape(row: Row): Gasto {
    Gasto(ToNumber(row.saude), ToNumber(row.educacao), ToNumber(row.transporte))
  }

  /** The index of the row `find` selects: the lowest index that matches. */
  function FirstMatch(rows: seq<Row>, cidade: string, ano: string): (r: Option<nat>)
    ensures r.Some? ==> r.value < |rows| && Matches(rows[r.value], cidade, ano)
    ensures r.Some? ==> forall j :: 0 <= j < r.value ==> !Matches(rows[j], cidade, ano)
    ensures r.None? ==> forall j :: 0 <= j < |rows| ==> !Matches(rows[j], cidade, ano)
  {
    if rows == [] then None
    else if Matches(rows[0], cidade, ano) then Some(0)
    else match FirstMatch(rows[1..], cidade, ano)
      case None => None
      case Some(k) => Some(k + 1)
  }

  /** What `getGastos` resolves to when the file is read: `null` when no row
      matches, otherwise the amounts of the first matching row. */
  function Lookup(rows: seq<Row>, cidade: string, ano: string): (r: Option<Gasto>)
    ensures r.None? <==> forall j :: 0 <= j < |rows| ==> !Matches(rows[j], cidade, ano)
    ensures r.Some? ==>
      exists k :: 0 <= k < |rows| && Matches(rows[k], cidade, ano) && r.value == Shape(rows[k])
  {
    match FirstMatch(rows, cidade, ano)
    case None => None
    case Some(k) => Some(Shape(rows[k]))
  }

  /** The rows that match the query, in file order: an independent
      definition of the candidates `find` chooses among. */
  function Matching(rows: seq<Row>, cidade: string, ano: string): (m: seq<Row>)
    ensures |m| <= |rows|
    ensures forall i :: 0 <= i < |m| ==> Matches(m[i], cidade, ano) && m[i] in rows
    ensures forall j :: 0 <= j < |rows| && Matches(rows[j], cidade, ano) ==> rows[j] in m
  {
    if rows == [] then []
    else if Matches(rows[0], cidade, ano) then [rows[0]] + Matching(rows[1..], cidade, ano)
    else Matching(rows[1..], cidade, ano)
  }

  // ---------------------------------------------------------------------
  // The imperative steps of getGastos
  // ---------------------------------------------------------------------

  /** The `data` handler: one `push` onto `results` per delivered row. */
  method CollectRows(delivered: seq<Row>) returns (results: seq<Row>)
    ensures |results| == |delivered|
    ensures forall i :: 0 <= i < |delivered| ==> results[i] == delivered[i]
  {
    results := [];
    for i := 0 to |delivered|
      invariant results == delivered[..i]
    {
      results := results + [delivered[i]];
    }
  }

  /** `results.find(...)`: a scan from the front that stops at the first match. */
  method FindRow(results: seq<Row>, cidade: string, ano: string) returns (found: Option<Row>)
    ensures found.None? <==> FirstMatch(results, cidade, ano).None?
    ensures found.Some? ==> found.value == results[FirstMatch(results, cidade, ano).value]
  {
    var i := 0;
    while i < |results|
      invariant 0 <= i <= |results|
      invariant forall j :: 0 <= j < i ==> !Matches(results[j], cidade, ano)
    {
      if Matches(results[i], cidade, ano) {
        return Some(results[i]);
      }
      i := i + 1;
    }
    found := None;
  }

  /** The whole of `getGastos`: a parser error rejects the promise, the end
      of the parsed rows resolves it with the lookup. */
  method GetGastos(file: CsvFile, cidade: string, ano: string) returns (p: Settled)
    ensures file.ParseError? ==> p == Rejected
    ensures file.Readable? ==> p == Resolved(Lookup(file.rows, cidade, ano))
  {
    match file
    case ParseError =>
      p := Rejected;
    case Readable(delivered) =>
      var results := CollectRows(delivered);
      assert results == delivered;
      var gasto := FindRow(results, cidade, ano);
      if gasto.Some? {
        p := Resolved(Some(Shape(gasto.value)));
      } else {
        p := Resolved(None);
      }
  }

  // ---------------------------------------------------------------------
  // Properties of the lookup
  // ---------------------------------------------------------------------

  /** First match wins: the lowest matching index decides the result, so of
      several rows with the same key only the earliest is ever returned. */
  lemma LookupIsFirstMatch(rows: seq<Row>, cidade: string, ano: string, k: nat)
    requires k < |rows| && Matches(rows[k], cidade, ano)
    requires forall j :: 0 <= j < k ==> !Matches(rows[j], cidade, ano)
    ensures Lookup(rows, cidade, ano) == Some(Shape(rows[k]))
  {
  }

  /** A found result carries the conversions of exactly one row's amounts,
      that row agrees with the query on both `cidade` and `ano`, and no
      earlier row does. */
  lemma LookupFields(rows: seq<Row>, cidade: string, ano: string)
    requires Lookup(rows, cidade, ano).Some?
    ensures exists k :: 0 <= k < |rows|
                && rows[k].cidade == cidade && rows[k].ano == ano
                && (forall j :: 0 <= j < k ==> !(rows[j].cidade == cidade && rows[j].ano == ano))
                && Lookup(rows, cidade, ano).value.saude == ToNumber(rows[k].saude)
                && Lookup(rows, cidade, ano).value.educacao == ToNumber(rows[k].educacao)
                && Lookup(rows, cidade, ano).value.transporte == ToNumber(rows[k].transporte)
  {
    var k := FirstMatch(rows, cidade, ano).value;
    assert forall j :: 0 <= j < k ==> !Matches(rows[j], cidade, ano);
  }

  /** A row that differs from the query on `cidade` or on `ano` is never
      selected: inserting it anywhere leaves the result unchanged. */
  lemma {:induction false} LookupIgnoresNonMatching(pre: seq<Row>, x: Row, post: seq<Row>, cidade: string, ano: string)
    requires x.cidade != cidade || x.ano != ano
    ensures Lookup(pre + [x] + post, cidade, ano) == Lookup(pre + post, cidade, ano)
  {
    var rows, rows' := pre + [x] + post, pre + post;
    var f, f' := FirstMatch(rows, cidade, ano), FirstMatch(rows', cidade, ano);
    // Index j of `rows'` is index j of `rows` before the insertion point and j + 1 after it.
    forall j | 0 <= j < |rows'|
      ensures rows'[j] == if j < |pre| then rows[j] else rows[j + 1]
    {
    }
    assert !Matches(rows[|pre|], cidade, ano);
    if f'.Some? {
      var k' := f'.value;
      var k := if k' < |pre| then k' else k' + 1;
      forall j | 0 <= j < k ensures !Matches(rows[j], cidade, ano) {
        if j < |pre| {
          assert rows[j] == rows'[j];
        } else if j > |pre| {
          assert rows[j] == rows'[j - 1];
        }
      }
      LookupIsFirstMatch(rows, cidade, ano, k);
      LookupIsFirstMatch(rows', cidade, ano, k');
    } else {
      forall j | 0 <= j < |rows| ensures !Matches(rows[j], cidade, ano) {
        if j < |pre| {
          assert rows[j] == rows'[j];
        } else if j > |pre| {
          assert rows[j] == rows'[j - 1];
        }
      }
    }
  }

  /** Rows after the first match do not matter: two tables that agree up to
      and including the first matching row give the same result. */
  lemma LookupDeterminedByPrefix(rows: seq<Row>, rows': seq<Row>, cidade: string, ano: string, k: nat)
    requires FirstMatch(rows, cidade, ano) == Some(k)
    requires k < |rows'| && rows'[..k + 1] == rows[..k + 1]
    ensures Lookup(rows', cidade, ano) == Lookup(rows, cidade, ano)
  {
    assert forall j :: 0 <= j <= k ==> rows'[j] == rows[..k + 1][j];
    LookupIsFirstMatch(rows', cidade, ano, k);
    LookupIsFirstMatch(rows, cidade, ano, k);
  }

  /** Appending rows to a table that already holds a match keeps the result. */
  lemma LookupAppendFound(rows: seq<Row>, extra: seq<Row>, cidade: string, ano: string)
    requires Lookup(rows, cidade, ano).Some?
    ensures Lookup(rows + extra, cidade, ano) == Lookup(rows, cidade, ano)
  {
    var k := FirstMatch(rows, cidade, ano).value;
    assert (rows + extra)[..k + 1] == rows[..k + 1];
    LookupDeterminedByPrefix(rows, rows + extra, cidade, ano, k);
  }

  /** Appending rows to a table without a match gives the result of the
      appended rows alone. */
  lemma LookupAppendNotFound(rows: seq<Row>, extra: seq<Row>, cidade: string, ano: string)
    requires Lookup(rows, cidade, ano).None?
    ensures Lookup(rows + extra, cidade, ano) == Lookup(extra, cidade, ano)
  {
    var all := rows + extra;
    assert forall j :: 0 <= j < |extra| ==> all[|rows| + j] == extra[j];
    match FirstMatch(extra, cidade, ano)
    case None =>
      forall j | 0 <= j < |all| ensures !Matches(all[j], cidade, ano) {
        if j >= |rows| {
          assert all[j] == extra[j - |rows|];
        }
      }
    case Some(k) =>
      forall j | 0 <= j < |rows| + k ensures !Matches(all[j], cidade, ano) {
        if j >= |rows| {
          assert all[j] == extra[j - |rows|];
        }
      }
      LookupIsFirstMatch(all, cidade, ano, |rows| + k);
      LookupIsFirstMatch(extra, cidade, ano, k);
  }

  /** The lookup agrees with the reference filter: not found exactly
      when no row matches, otherwise the first of the matching rows. */
  lemma {:induction false} LookupIsHeadOfMatching(rows: seq<Row>, cidade: string, ano: string)
    ensures Lookup(rows, cidade, ano) ==
      (var m := Matching(rows, cidade, ano); if m == [] then None else Some(Shape(m[0])))
  {
    if rows != [] && !Matches(rows[0], cidade, ano) {
      LookupIsHeadOfMatching(rows[1..], cidade, ano);
      assert rows == [] + [rows[0]] + rows[1..];
      LookupIgnoresNonMatching([], rows[0], rows[1..], cidade, ano);
    }
  }

  /** The filter keeps file order: filtering a concatenation is the
      concatenation of the filtered parts. */
  lemma {:induction false} MatchingConcat(rows: seq<Row>, rows': seq<Row>, cidade: string, ano: string)
    ensures Matching(rows + rows', cidade, ano) == Matching(rows, cidade, ano) + Matching(rows', cidade, ano)
  {
    if rows == [] {
      assert rows + rows' == rows';
    } else {
      assert (rows + rows')[1..] == rows[1..] + rows';
      MatchingConcat(rows[1..], rows', cidade, ano);
    }
  }
}
