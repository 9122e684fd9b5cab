# Spending lookup (Visualizador de Gastos Públicos backend), modelled in Dafny

The backend answers `GET /gastos?cidade=<city>&ano=<year>` from a CSV table
of public spending. For each request, `getGastos` reads the table and
collects the parsed rows in file order. It picks the first row whose
`cidade` and `ano` equal the query exactly. It then returns that row's
`Saúde`, `Educação` and `Transporte` amounts converted to numbers, or `null`
when no row matches. The route handler answers 400 when a parameter is
missing or empty, 404 when there is no match and 200 with the amounts
otherwise.

Modules:

- `Wrappers` (`wrappers.dfy`): `Option`, where `None` stands for `null`/`undefined`.
- `JsNumber` (`number.dfy`): the `Number(text)` coercion, restricted to
  integers and `NaN`. It comes with a decimal printer and round-trip lemmas.
- `Gastos` (`gastos.dfy`): rows, the result triple and the table file as
  `Readable(rows) | ParseError`. It holds the specification functions
  `FirstMatch`/`Lookup`, a reference filter `Matching`, and the imperative
  steps of `getGastos`: the `push` loop, the `find` scan and their
  composition. The lemmas about the lookup are here too.
- `GastosRoute` (`route.dfy`): the query, the responses with their fixed
  messages, the decision function `Respond` and the handler method `Handle`.

The CSV parser is not modelled. The rows it delivers are the input
sequence of `Readable`. An error that the parser stream emits is
`ParseError`: the `error` listener rejects the promise, and the async
handler does not catch the rejection. The model calls that outcome
`Unhandled`; the handler sends no response for it, so it has no status.

The code rejects an EMPTY parameter with 400 as well as a missing one,
because `!cidade` is true for `""`.

## Model

| member | source | states |
|---|---|---|
| `JsNumber.ToNumber` | beckend/index.js:23-25 | a cell converts to an integer exactly when it is empty (giving 0), a digit run (giving its decimal value) or a digit run after `-` or `+` (giving its negated or plain value); every other text is `NaN` (digit runs convert exactly, see "Left out") |
| `JsNumber.DecimalRoundTrip` | beckend/index.js:23-25 | the decimal text of every natural number reads back as that number |
| `JsNumber.IntTextRoundTrip` | beckend/index.js:23-25 | a numeric-looking cell (`"5000000"`, `"-12"`) converts to the integer it spells, for every integer of magnitude at most 2^53 - 1 |
| `JsNumber.LeadingZero` | beckend/index.js:23-25 | leading zeros do not change the number a digit cell converts to |
| `Gastos.FirstMatch` | beckend/index.js:18-20 | `find` selects an index whose row equals the query on both `cidade` and `ano`, and no lower index matches; it selects nothing exactly when no row matches |
| `Gastos.Lookup` | beckend/index.js:18-29 | the promise resolves to `null` exactly when no row matches both fields; otherwise to the shaped amounts of a matching row |
| `Gastos.Matching` | beckend/index.js:18-20 | reference filter: holds only rows that match, and every row that matches |
| `Gastos.CollectRows` | beckend/index.js:13-16 | `results` ends with one entry per delivered row: same length, and entry i is the i-th delivered row |
| `Gastos.FindRow` | beckend/index.js:18-20 | the front-to-back scan returns the row at the first matching index, or nothing when no row matches |
| `Gastos.GetGastos` | beckend/index.js:11-33 | a parser error rejects; a parsed file resolves to `Lookup` of its rows in file order |
| `Gastos.LookupIsFirstMatch` | beckend/index.js:18-20 | if row k matches and no earlier row does, the result is built from row k; of duplicate keys the earliest wins |
| `Gastos.LookupFields` | beckend/index.js:19-26 | a found result's `saude`, `educacao` and `transporte` are the conversions of the `Saúde`, `Educação` and `Transporte` cells of one row; that row equals the query on both fields and no earlier row does |
| `Gastos.LookupIgnoresNonMatching` | beckend/index.js:19 | a row that differs on `cidade` or on `ano` is never selected: inserting it anywhere leaves the result unchanged |
| `Gastos.LookupDeterminedByPrefix` | beckend/index.js:18-20 | tables that agree up to and including the first matching row give the same result, whatever follows |
| `Gastos.LookupAppendFound` | beckend/index.js:18-20 | appending rows after a table that already has a match leaves the found result unchanged |
| `Gastos.LookupAppendNotFound` | beckend/index.js:18-28 | appending rows to a table without a match gives the result of the appended rows alone |
| `Gastos.MatchingConcat` | beckend/index.js:18-20 | the filter keeps file order: filtering a concatenation concatenates the filtered parts |
| `Gastos.LookupIsHeadOfMatching` | beckend/index.js:18-28 | the lookup equals the reference: `null` when the filtered rows are empty, else the shaped first filtered row |
| `GastosRoute.Respond` | beckend/index.js:35-43 | 400 with "cidade e ano são obrigatórios" exactly when a parameter is missing or empty; for a valid query, 404 with "Dados não encontrados" exactly when the lookup finds nothing, 200 only with the lookup's own result, and an unhandled failure when the parser reports an error |
| `GastosRoute.Handle` | beckend/index.js:35-43 | the handler validates, awaits `getGastos` only on a valid query, and answers as `Respond` says |
| `GastosRoute.InvalidQueryIgnoresFile` | beckend/index.js:37-39 | a missing or empty parameter gives the same 400 answer whatever the file holds, even a parser error, so no lookup influences it |
| `GastosRoute.StatusOfValidQuery` | beckend/index.js:40-42 | with both parameters present the status is 404 when the lookup is `null` and 200 otherwise, and the 200 body is exactly the lookup result |
| `JsNumber.DigitThenZeros` | beckend/index.js:23-25 | a digit followed by k zeros (`"5000000"`) converts to that digit times 10^k |
| `GastosRoute.SaoPauloScenario` | beckend/index.js:35-43 | `?cidade=São Paulo&ano=2024` over the São Paulo 2024 row answers 200 with 5000000, 3000000, 2000000 |
| `GastosRoute.AtlantisScenario` | beckend/index.js:35-43 | `?cidade=Atlantis&ano=2024` over a table without Atlantis answers 404 |
| `GastosRoute.NoParametersScenario` | beckend/index.js:35-39 | a request without parameters answers 400, whatever the file |

## Left out

- JsNumber.ToNumber: only empty text, digit runs and signed digit runs are covered. JavaScript also trims white space and accepts decimals, exponents, `0x`/`0o`/`0b` prefixes and `Infinity`. The model maps all of those to `NaN` because it has no floating point. Digit runs convert exactly: JavaScript rounds values above 2^53 to the nearest double and gives `Infinity` for runs beyond about 309 digits. Signed zero is not told apart from 0.
- Serialising the 200 body to JSON is not modelled (`JSON.stringify` writes `NaN` as `null`), and neither is `res.json` itself.
- File streaming and CSV parsing (`fs.createReadStream`, `csv-parser`, lines 14-15) are foreign code. The parsed rows are the model's input. A cell missing from a row (`undefined`, which converts to `NaN`) is not modelled: every row has five texts.
- A failure to read the file itself (missing file, permissions, an I/O error part-way) is raised on the file stream, which has no `error` listener: `pipe` does not pass it on to the parser stream. It surfaces as an uncaught exception, the promise never settles and no response is sent. This path is not modelled.
- A parser error that comes after some rows were delivered behaves like `ParseError`: the promise rejects and the collected rows are discarded.
- GastosRoute.Respond: the unhandled rejection of the async handler is one opaque `Unhandled` outcome without a status. What the framework does with it depends on its version and is not modelled.
- Express, CORS, the `PORT` variable and `app.listen` (lines 1-9, 45) are framework and network setup. Query values that Express parses into arrays or objects are not modelled: a parameter is absent or a string.
- `frontend/src/App.jsx`, `frontend/src/components/cardGasto.jsx` and `frontend/src/components/header.jsx` render a hard-coded array and static markup. They contain no logic to model.
