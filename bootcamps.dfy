/**
 * The bootcamp controller: how `getBootcamps` turns the query string into a
 * Mongoose query (filter text, projection, sort order), how the handlers
 * shape their replies, and how an error they forward ends as a response.
 * The store is not modelled: what it returns is a parameter.
 */
module Bootcamps {
  import opened Wrappers
  import opened QueryObject
  import opened FieldLists
  import opened OperatorRewrite
  import opened ErrorMiddleware

  /** Query keys that shape the query instead of filtering documents. */
  const ExcludeFields: seq<string> := ["select", "sort"]
  /** Newest first when the client names no sort order. */
  const DefaultSort := "-createdAt"
  const NotFoundPrefix := "Bootcamp not found with id of "

  /** What `Bootcamp.find(...)`, `.select(...)` and `.sort(...)` receive. */
  datatype QuerySpec = QuerySpec(filter: string, projection: Option<string>, sort: string)

  datatype Body<T> = ListBody(count: nat, items: seq<T>) | ItemBody(item: T)
  /** `res.status(status).json({ success, ... })`. */
  datatype Reply<T> = Reply(status: int, success: bool, body: Body<T>)
  /** A handler either replies itself or forwards an error to `next`. */
  datatype Outcome<T> = Sent(reply: Reply<T>) | Next(error: ErrorRecord)
  /** What the client finally receives. */
  datatype Response<T> = Delivered(reply: Reply<T>) | Failed(errorReply: ErrorReply)

  /** JavaScript truthiness of a query parameter: `undefined` and `""` are falsy. */
  predicate Truthy(v: Option<Value>)
  {
    v.Some? && v.value != Str("")
  }

  /** A truthy parameter that is not a string has no `split` method. */
  predicate NotSplittable(q: seq<Field>, param: string)
  {
    var v := Lookup(q, param);
    Truthy(v) && !v.value.Str?
  }

  /** The TypeError thrown by `req.query.<param>.split(",")` on an array or object. */
  function SplitError(param: string): ErrorRecord
  {
    ErrorRecord("TypeError", None, None, Some("req.query." + param + ".split is not a function"))
  }

  /** The filter object: the query without the reserved keys. */
  function FilterFields(q: seq<Field>): (r: seq<Field>)
    ensures forall f :: f in r <==> f in q && f.key != "select" && f.key != "sort"
    ensures DistinctKeys(q) ==>
      Lookup(r, "select").None? && Lookup(r, "sort").None? &&
      forall k :: k != "select" && k != "sort" ==> Lookup(r, k) == Lookup(q, k)
  {
    WithoutAll(q, ExcludeFields)
  }

  /** The filter text handed to JSON.parse: the filter object serialised, operators marked. */
  function FilterText(q: seq<Field>): (t: string)
    ensures t == MarkAll(Runs(Serialize(Obj(FilterFields(q)))))
    ensures Unmark(t) == Serialize(Obj(FilterFields(q)))
    ensures |t| == |Serialize(Obj(FilterFields(q)))| + OperatorCount(Serialize(Obj(FilterFields(q))))
  {
    var s := Serialize(Obj(FilterFields(q)));
    MarkOperatorsIsMarkedRuns(s);
    UnmarkMarkOperators(s);
    MarkOperatorsLength(s);
    MarkOperators(s)
  }

  /**
   * The query `getBootcamps` builds from `req.query`, or the error it throws
   * first: `select` is examined before `sort`.
   */
  function Translate(q: seq<Field>): (r: Result<QuerySpec, ErrorRecord>)
    ensures r.Failure? <==> NotSplittable(q, "select") || NotSplittable(q, "sort")
    ensures r.Failure? ==>
      r.error == SplitError(if NotSplittable(q, "select") then "select" else "sort")
    ensures r.Success? ==> r.value.filter == FilterText(q)
    ensures r.Success? ==>
      (r.value.projection.Some? <==> Truthy(Lookup(q, "select"))) &&
      (r.value.projection.Some? ==>
        r.value.projection.value == CommaToSpace(Lookup(q, "select").value.text))
    ensures r.Success? ==>
      (Truthy(Lookup(q, "sort")) ==> r.value.sort == CommaToSpace(Lookup(q, "sort").value.text)) &&
      (!Truthy(Lookup(q, "sort")) ==> r.value.sort == DefaultSort)
  {
    var select := Lookup(q, "select");
    var sort := Lookup(q, "sort");
    if NotSplittable(q, "select") then Failure(SplitError("select"))
    else if NotSplittable(q, "sort") then Failure(SplitError("sort"))
    else
      var projection := if Truthy(select) then Some(CommaToSpace(select.value.text)) else None;
      var sortBy := if Truthy(sort) then CommaToSpace(sort.value.text) else DefaultSort;
      Success(QuerySpec(FilterText(q), projection, sortBy))
  }

  /** `{ success: true, count: items.length, data: items }` with status 200. */
  function ListReply<T>(items: seq<T>): (r: Reply<T>)
    ensures r.status == 200 && r.success && r.body.ListBody?
    ensures r.body.items == items && r.body.count == |r.body.items|
  {
    Reply(200, true, ListBody(|items|, items))
  }

  /** The outcome of `getBootcamps` given the translated query and the store's answer to it. */
  function ListOutcome<T>(spec: Result<QuerySpec, ErrorRecord>,
                          find: QuerySpec -> Result<seq<T>, ErrorRecord>): Outcome<T>
  {
    if spec.Failure? then Next(spec.error)
    else
      var found := find(spec.value);
      if found.Failure? then Next(found.error) else Sent(ListReply(found.value))
  }

  /**
   * `getBootcamps`: the query is copied, the reserved keys deleted from the
   * copy one by one, the rest serialised and rewritten, then `select` and
   * `sort` converted. `req.query` itself is not in the frame, so it is left
   * as it was.
   */
  method GetBootcamps<T>(query: Dict, find: QuerySpec -> Result<seq<T>, ErrorRecord>)
    returns (o: Outcome<T>)
    requires query.Valid()
    ensures o == ListOutcome(Translate(query.entries), find)
    ensures o.Sent? ==> o.reply.status == 200 && o.reply.body.count == |o.reply.body.items|
  {
    var reqQuery := new Dict.Copy(query);
    for j := 0 to |ExcludeFields|
      invariant reqQuery.Valid()
      invariant reqQuery.entries == WithoutAll(query.entries, ExcludeFields[..j])
    {
      assert ExcludeFields[..j + 1][..j] == ExcludeFields[..j];
      reqQuery.Delete(ExcludeFields[j]);
    }
    assert ExcludeFields[..|ExcludeFields|] == ExcludeFields;

    var queryStr := Serialize(Obj(reqQuery.entries));
    queryStr := ReplaceOperators(queryStr);

    var select := query.Get("select");
    var projection: Option<string> := None;
    if Truthy(select) {
      if !select.value.Str? {
        assert Translate(query.entries) == Failure(SplitError("select"));
        return Next(SplitError("select"));
      }
      projection := Some(CommaToSpace(select.value.text));
    }

    var sort := query.Get("sort");
    var sortBy: string;
    if Truthy(sort) {
      if !sort.value.Str? {
        assert Translate(query.entries) == Failure(SplitError("sort"));
        return Next(SplitError("sort"));
      }
      sortBy := CommaToSpace(sort.value.text);
    } else {
      sortBy := DefaultSort;
    }

    assert Translate(query.entries) == Success(QuerySpec(queryStr, projection, sortBy));
    var found := find(QuerySpec(queryStr, projection, sortBy));
    if found.Failure? {
      return Next(found.error);
    }
    o := Sent(ListReply(found.value));
  }

  /** The error the single-entity handlers forward when the store finds nothing. */
  function NotFound(id: string): (e: ErrorRecord)
    ensures ErrorHandler(e) == ErrorReply(404, Envelope(false, NotFoundPrefix + id))
  {
    ErrorResponseDelivered(NotFoundPrefix + id, 404);
    NewErrorResponse(NotFoundPrefix + id, 404)
  }

  /** Where a handler's outcome ends: its own reply, or the error middleware's. */
  function Finish<T>(o: Outcome<T>): (r: Response<T>)
    ensures o.Sent? ==> r == Delivered(o.reply)
    ensures o.Next? ==> r == Failed(ErrorHandler(o.error))
    ensures o.Next? ==> r.Failed? && !r.errorReply.body.success
  {
    match o
    case Sent(reply) => Delivered(reply)
    case Next(e) => Failed(ErrorHandler(e))
  }

  /**
   * `getBootcamp`, `updateBootcamp` and `deleteBootcamp` after the store call:
   * a missing document is a 404 naming the id, a found one is sent with 200,
   * a rejected store call goes to the error middleware.
   */
  function SingleEntity<T>(id: string, found: Result<Option<T>, ErrorRecord>): (o: Outcome<T>)
    ensures found == Success(None) ==>
      o == Next(NotFound(id)) &&
      Finish(o) == Failed(ErrorReply(404, Envelope(false, NotFoundPrefix + id)))
    ensures found.Success? && found.value.Some? ==>
      o == Sent(Reply(200, true, ItemBody(found.value.value)))
    ensures found.Failure? ==> o == Next(found.error)
  {
    match found
    case Failure(e) => Next(e)
    case Success(None) => Next(NotFound(id))
    case Success(Some(b)) => Sent(Reply(200, true, ItemBody(b)))
  }

  /** `createBootcamp`: the created document with status 201. */
  function CreateBootcamp<T>(created: Result<T, ErrorRecord>): (o: Outcome<T>)
    ensures created.Success? ==> o == Sent(Reply(201, true, ItemBody(created.value)))
    ensures created.Failure? ==> o == Next(created.error)
  {
    if created.Success? then Sent(Reply(201, true, ItemBody(created.value))) else Next(created.error)
  }

  /** An id Mongoose cannot cast reaches the client as a 404, not a 500. */
  lemma BadIdIsNotFound<T>(id: string, e: ErrorRecord)
    requires e.name == CastErrorName && e.value == Some(id)
    ensures Finish(SingleEntity<T>(id, Failure(e))) ==
      Failed(ErrorReply(404, Envelope(false, "Resource not found with id of " + id)))
  {
  }

  /** A `select` given as an array or object reaches the client as a 500 naming the TypeError. */
  lemma UnsplittableSelectIsServerError<T>(q: seq<Field>, find: QuerySpec -> Result<seq<T>, ErrorRecord>)
    requires NotSplittable(q, "select")
    ensures Finish(ListOutcome(Translate(q), find)) ==
      Failed(ErrorReply(500, Envelope(false, SplitError("select").message.value)))
  {
    assert Translate(q) == Failure(SplitError("select"));
  }
}
