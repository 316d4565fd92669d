# Devcamper bootcamps: query translation and error normalisation in Dafny

This project models two parts of the Devcamper REST API (Express + Mongoose):

- the bootcamp controller's list handler, `getBootcamps`, as far as it turns a parsed
  query string into a Mongoose query. It copies `req.query`, deletes the reserved keys
  `select` and `sort` from the copy, serialises the rest with `JSON.stringify`, and puts
  `$` before every whole-word `gt`, `gte`, `lt`, `lte` or `in` (the regular expression
  `/\b(gt|gte|lt|lte|in)\b/g`). It then turns the comma-separated `select` and `sort`
  strings into space-separated field lists, with `-createdAt` as the default sort;
- the reply shaping of the other handlers: a missing document becomes a 404
  `ErrorResponse` naming the id, `create` answers 201, and list replies carry
  `count` equal to the number of items;
- the error middleware `errorHandler`. It maps any forwarded error to an HTTP status
  and the envelope `{ success: false, error }`. A Mongoose `CastError` becomes a 404,
  a missing or zero status becomes 500, and a missing or empty message becomes
  `Server Error`.

Modules:

- `Wrappers` (wrappers.dfy): `Option` and `Result`.
- `OperatorRewrite` (operators.dfy): the operator rewrite.
  - The reference definition `MarkOperators` splits the text into maximal runs of word
    characters (`[A-Za-z0-9_]`, which is `\w` without the `u` flag) and of other
    characters. It prefixes a word run with `$` exactly when the whole run is an operator.
  - `ReplaceOperators` is the left-to-right scan the regular-expression engine performs.
    It tries the alternatives in their written order, each followed by the `\b` test.
    The method is proved equal to the reference.
  - `Unmark` removes the inserted `$` again. It is proved to be a left inverse:
    unmarking the rewrite gives back the input. It is not a right inverse, since
    rewriting the unmarked `gt` gives `$gt`.
- `FieldLists` (fieldlists.dfy): `split(",")` and `join(" ")`, proved against a
  character-by-character replacement.
- `QueryObject` (queryobject.dfy): the parsed query object.
  - Values are strings, arrays or nested objects.
  - The copy made by `{...req.query}` is a `Dict` object whose `Delete` method is
    `delete`.
  - `Serialize` is `JSON.stringify`, with its string escaping. `ParseValue` is a
    reference reader for JSON text without insignificant whitespace. It rejects a raw
    quote or control character inside a string literal, as `JSON.parse` does. Every
    serialised value is proved to read back as itself.
- `ErrorMiddleware` (errors.dfy): `errorHandler` as a function from an error record to
  a status and an envelope.
- `Bootcamps` (bootcamps.dfy): the handlers.
  - `GetBootcamps` is the imperative handler body. It is proved equal to the pure
    `Translate` followed by the store's answer.
  - `Finish` routes a forwarded error through `ErrorHandler`.

The store is not modelled: what `find`, `findById`, `findByIdAndUpdate`,
`findByIdAndDelete` and `create` return or reject with is a parameter.

Two facts about the code shape the model:

- The reserved keys are only `select` and `sort` (controllers/bootcamps.js:15).
- The operator rewrite (controllers/bootcamps.js:21) is purely textual over the whole
  serialised object. Keys and string values that are exactly an operator word are
  rewritten too: the value `in` becomes `$in`, and so does a field named `in`.

The list route passes through the `advancedResults` middleware before `getBootcamps`
(routes/bootcamps.js:24). That middleware is not part of this model.

## Model

| member | source | states |
|---|---|---|
| OperatorRewrite.ReplaceOperators | controllers/bootcamps.js:21 | the regex-style scan (alternatives in written order, `\b` on both sides, resume after a match) produces exactly the run-based reference rewrite |
| OperatorRewrite.MatchAtRuns | controllers/bootcamps.js:21 | the regular expression matches at a position exactly when a maximal word run that is one of the five operators starts there; never on a non-word character, never in the middle of a word |
| OperatorRewrite.MatchAt | controllers/bootcamps.js:21 | a match found at a position is one of the five operators and is the text found there |
| OperatorRewrite.RunsPartition | controllers/bootcamps.js:21 | the text is the concatenation of maximal runs, each all-word or all-non-word, with word and non-word runs alternating |
| OperatorRewrite.MarkOperatorsIsMarkedRuns | controllers/bootcamps.js:21 | the reference rewrite is the concatenation of the maximal runs of the text, each operator run with a `$` in front |
| OperatorRewrite.OperatorIsListed | controllers/bootcamps.js:21 | a word is an operator exactly when it is one of the alternatives `gt`, `gte`, `lt`, `lte`, `in` |
| OperatorRewrite.SingleWord | controllers/bootcamps.js:21 | a single word gains a `$` exactly when the whole word is an operator |
| OperatorRewrite.OperatorsInsideWordsUntouched | controllers/bootcamps.js:21 | `within`, `gtx` and `lte2` are not rewritten |
| OperatorRewrite.LongOperatorsMarkedWhole | controllers/bootcamps.js:21 | `gte` and `lte` become `$gte` and `$lte`, not `$gt`/`$lt` followed by `e` |
| OperatorRewrite.NotIdempotent | controllers/bootcamps.js:21 | `gt` becomes `$gt`, and rewriting again gives `$$gt`, since `$` is not a word character |
| OperatorRewrite.MarkOperatorsLength | controllers/bootcamps.js:21 | the output is longer than the input by exactly the number of operator words |
| OperatorRewrite.UnmarkMarkOperators | controllers/bootcamps.js:21 | removing each `$` that precedes a whole operator word gives back the input (a left inverse): only `$` characters are inserted, and nothing else changes |
| FieldLists.Split | controllers/bootcamps.js:26 | `split` with a one-character separator gives at least one piece, and no piece contains the separator |
| FieldLists.SplitThenJoin | controllers/bootcamps.js:26 | splitting on one character and joining with another replaces each occurrence of the first by the second |
| FieldLists.SplitJoinRoundTrip | controllers/bootcamps.js:26 | joining the pieces with the separator they were split on gives back the input |
| FieldLists.CommaToSpaceReplaces | controllers/bootcamps.js:31 | the converted list has the same length as the input, with every comma replaced by one space |
| FieldLists.SameFieldsInOrder | controllers/bootcamps.js:26 | a list without spaces names the same fields, in the same order, once converted |
| QueryObject.Lookup | controllers/bootcamps.js:25 | a property read finds a field of the object under that key, and is undefined exactly when no field has that key |
| QueryObject.Without | controllers/bootcamps.js:16 | after `delete`, the key reads as undefined, every other key reads as before, and no new field appears |
| QueryObject.WithoutAll | controllers/bootcamps.js:15-16 | after deleting each listed key, those keys read as undefined, all others read as before, and no field appears that was not there |
| QueryObject.Dict.Copy | controllers/bootcamps.js:12 | the spread copy has the same fields in the same order |
| QueryObject.Dict.Delete | controllers/bootcamps.js:16 | `delete` removes that key, keeps keys distinct and leaves every other key's value |
| QueryObject.EscapeChar | controllers/bootcamps.js:18 | JSON.stringify writes a character as a backslash escape exactly when it is `"`, `\` or a control character, and as itself otherwise; it never emits a control character |
| QueryObject.Escape | controllers/bootcamps.js:18 | escaped string text contains no control character and is at least as long as the input |
| QueryObject.ReadChar | controllers/bootcamps.js:18 | a strict JSON string reader reads each escaped character back as itself and goes on after it |
| QueryObject.ReadEscaped | controllers/bootcamps.js:18 | the escaped text closed by a quote reads back as the original string under a reader that rejects raw quotes and control characters, and the literal ends at that closing quote |
| QueryObject.ParseSerialize | controllers/bootcamps.js:18 | every serialised string, array or object reads back as the same value, and reading stops right after its text, so arrays and objects can nest |
| QueryObject.SerializeInjective | controllers/bootcamps.js:18 | two values with the same JSON text are equal |
| ErrorMiddleware.ErrorHandler | middleware/error.js:3-15 | the reply always has `success: false` and a non-empty message. Its status is 404, the carried status or 500. A CastError gives 404 and "Resource not found with id of" its value, whatever status it carried. Any other error keeps a non-zero status and a non-empty message, falling back to 500 and "Server Error" |
| ErrorMiddleware.NewErrorResponse | middleware/error.js:12 | an ErrorResponse is not a CastError and carries the given status and message |
| ErrorMiddleware.ErrorResponseDelivered | middleware/error.js:6-14 | an ErrorResponse with a non-empty message and a non-zero status reaches the client unchanged |
| ErrorMiddleware.ServerErrorExactly | middleware/error.js:14 | for an error other than CastError, the status is 500 exactly when no non-zero status was carried or the carried one was 500 |
| Bootcamps.FilterFields | controllers/bootcamps.js:12-16 | the filter object has neither `select` nor `sort`, every other key keeps its value, and it holds exactly the query's other fields |
| Bootcamps.FilterText | controllers/bootcamps.js:18-22 | the text given to `find` is the serialised filter's maximal runs with a `$` in front of each operator run and nowhere else; unmarking it gives the serialised filter, and it is longer by one character per operator word |
| Bootcamps.Translate | controllers/bootcamps.js:12-33 | it throws exactly when `select` or `sort` is truthy but not a string (`select` is checked first). Otherwise a projection is applied exactly when `select` is truthy, with the commas turned into spaces. The sort is `sort` converted the same way, or `-createdAt` when `sort` is absent or empty |
| Bootcamps.GetBootcamps | controllers/bootcamps.js:9-37 | the handler (copy, delete loop, serialise, rewrite, select, sort, query) yields exactly the translated query's outcome. A success is a 200 whose count is the number of items. `req.query` is outside its frame and is not changed |
| Bootcamps.ListReply | controllers/bootcamps.js:93 | a list reply is a 200 success whose `count` equals the number of items in `data` |
| Bootcamps.NotFound | controllers/bootcamps.js:44 | the not-found error reaches the client as a 404 with "Bootcamp not found with id of" and the id |
| Bootcamps.SingleEntity | controllers/bootcamps.js:42-72 | get, update and delete: a missing document forwards the not-found error and ends as that 404, a found document is sent with 200 as `data`, and a rejected store call is forwarded unchanged |
| Bootcamps.CreateBootcamp | controllers/bootcamps.js:51-54 | a created document is sent with 201, and a rejected create is forwarded |
| Bootcamps.Finish | controllers/bootcamps.js:44 | a sent reply is delivered as is, and a forwarded error ends as exactly the error middleware's reply to it, which has `success: false` |
| Bootcamps.BadIdIsNotFound | middleware/error.js:10-13 | an id the store cannot cast ends as a 404 naming the id, not a 500 |
| Bootcamps.UnsplittableSelectIsServerError | controllers/bootcamps.js:25-26 | a `select` that is an array or object throws a TypeError, which ends as a 500 carrying its message |

## Left out

- The store: Mongoose's `find`, `select`, `sort`, `findById`, `findByIdAndUpdate`
  (merge and validation), `findByIdAndDelete` and `create` belong to a library that is
  not part of this model. Their results are parameters.
- JSON.parse of the rewritten filter (controllers/bootcamps.js:22) is not modelled. The
  model hands the filter to the store as text.
- JSON.stringify of values other than strings, arrays and objects is left out, because
  a parsed query string holds no others. Lone surrogate escapes are left out too,
  because Dafny characters are Unicode scalar values.
- The radius search (controllers/bootcamps.js:78-92) calls an external geocoder and
  divides by 3963 in floating point. Only its reply shaping (line 93) is modelled, by
  `ListReply`.
- `console.log(err.stack.red)` (middleware/error.js:4) writes to the console. It would
  throw for an error without a stack, which the model does not capture.
- `ErrorResponse` lives in utils/errorResponse.js, which is not part of this model. It
  is taken to be an Error named "Error" with an own enumerable `statusCode` and the
  given message.
- The asyncHandler wrapper is not part of this model either. A rejected promise is
  taken to be forwarded to `next`, which is what `Outcome.Next` stands for.
- ErrorMiddleware.ErrorHandler: a status code that is not a valid HTTP status (Express
  would throw) is not modelled. A `NaN` status is not modelled either; `NaN || 500`
  gives 500, as a missing status does. Messages that are not strings are not modelled.
- Bootcamps.Finish: it assumes that `errorHandler` is mounted as the application's
  error middleware, after the bootcamp routes. server.js in this revision defines its
  own placeholder routes and mounts neither the router nor `errorHandler`.
- The seeder, the server setup, the routes, the courses controller, the
  `advancedResults` middleware and photo upload are outside the modelled core.
- `ParseValue` reads only what JSON.stringify writes: it accepts no whitespace between
  tokens and no numbers, booleans or `null`.
- Worked examples on serialised query text (for instance `averageCost[lte]=10000`) are
  not stated. The general lemmas above cover them, but evaluating concrete JSON text is
  beyond what the verifier settles cheaply.
