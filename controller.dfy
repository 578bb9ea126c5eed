/**
 * The controller's five actions over an in-memory todos table: list, create,
 * show, update and delete, with HTTP responses as values.
 */
module TodoController {
  import opened Wrappers
  import opened Todos
  import opened Validation
  import opened Ordering
  import opened Listing

  /** The JSON body of a successful response. */
  datatype Body = One(todo: Todo) | Many(todos: seq<Todo>) | Message(text: string)

  /**
   * A response: a success with its status code, a 422 with the validator's
   * error bag, show's 404 with a message, or the lookup failure `findOrFail`
   * raises for a missing id (the framework renders it; that rendering is not
   * part of this model).
   */
  datatype Response =
    | Ok(code: int, body: Body)
    | Err(code: int, errors: map<Field, seq<Rule>>)
    | NotFound(message: string)
    | LookupFailure(id: int)

  const DeletedMessage: string := "Todo deleted successfully"
  const NotFoundMessage: string := "Todo not found"

  /** The column value written for a validated text field: a string, or NULL for null. */
  function Text(v: Value): Option<string> {
    if v.Str? then Some(v.text) else None
  }

  /** The column value written for a validated status field. */
  function StatusOf(v: Value): Option<Status> {
    if v.Str? then ParseStatus(v.text) else None
  }

  /** A supplied status that names one of the three statuses. */
  predicate NamesStatus(p: Payload) {
    StatusField in p && p[StatusField].Str? && p[StatusField].text in StatusNames
  }

  /** The row `Todo::create($request->only([...]))` inserts under `id`; an absent field is NULL. */
  function Created(id: int, p: Payload): (t: Todo)
    ensures t.id == id
    ensures WritesText(t.title, p, TitleField)
    ensures WritesText(t.details, p, DetailsField)
    ensures NamesStatus(p) ==> t.status.Some? && StatusName(t.status.value) == p[StatusField].text
    ensures !NamesStatus(p) ==> t.status.None?
  {
    Todo(id,
         if TitleField in p then Text(p[TitleField]) else None,
         if DetailsField in p then Text(p[DetailsField]) else None,
         if StatusField in p then StatusOf(p[StatusField]) else None)
  }

  /** `$todo->update($request->only([...]))`: the supplied fields overwrite, the others stay. */
  function Patched(t: Todo, p: Payload): (u: Todo)
    ensures u.id == t.id
    ensures TitleField in p ==> WritesText(u.title, p, TitleField)
    ensures DetailsField in p ==> WritesText(u.details, p, DetailsField)
    ensures NamesStatus(p) ==> u.status.Some? && StatusName(u.status.value) == p[StatusField].text
    ensures StatusField in p && !NamesStatus(p) ==> u.status.None?
    ensures TitleField !in p ==> u.title == t.title
    ensures DetailsField !in p ==> u.details == t.details
    ensures StatusField !in p ==> u.status == t.status
  {
    Todo(t.id,
         if TitleField in p then Text(p[TitleField]) else t.title,
         if DetailsField in p then Text(p[DetailsField]) else t.details,
         if StatusField in p then StatusOf(p[StatusField]) else t.status)
  }

  /** A nullable field as written: it holds the supplied string, or NULL when the value is null or absent. */
  predicate WritesText(written: Option<string>, p: Payload, f: Field) {
    if f in p && p[f].Str? then written == Some(p[f].text) else written.None?
  }

  /** The status as written: the named status when one was supplied, NULL otherwise. */
  predicate WritesStatus(written: Option<Status>, p: Payload) {
    if StatusField in p && p[StatusField].Str?
    then written.Some? && StatusName(written.value) == p[StatusField].text
    else written.None?
  }

  /**
   * A row created from an accepted payload reads back as supplied: the given
   * id, the title, the details or NULL, and the named status or NULL.
   */
  lemma CreatedReadsBack(id: int, p: Payload)
    requires StoreAcceptable(p)
    ensures Created(id, p).id == id
    ensures Created(id, p).title == Some(p[TitleField].text)
    ensures WritesText(Created(id, p).details, p, DetailsField)
    ensures WritesStatus(Created(id, p).status, p)
  {
  }

  /**
   * Of an accepted update, each supplied field is written as given (null
   * clears it) and each absent field keeps its value; the id never changes.
   */
  lemma PatchedReadsBack(t: Todo, p: Payload)
    requires UpdateAcceptable(p)
    ensures Patched(t, p).id == t.id
    ensures TitleField in p ==> WritesText(Patched(t, p).title, p, TitleField)
    ensures DetailsField in p ==> WritesText(Patched(t, p).details, p, DetailsField)
    ensures StatusField in p ==> WritesStatus(Patched(t, p).status, p)
    ensures TitleField !in p ==> Patched(t, p).title == t.title
    ensures DetailsField !in p ==> Patched(t, p).details == t.details
    ensures StatusField !in p ==> Patched(t, p).status == t.status
  {
  }

  /** Applying the same update payload twice leaves the row as applying it once. */
  lemma PatchIdempotent(t: Todo, p: Payload)
    ensures Patched(Patched(t, p), p) == Patched(t, p)
  {
  }

  /** An empty payload is accepted and changes nothing. */
  lemma EmptyPatchChangesNothing(t: Todo)
    ensures Validate(Modify, map[]) == map[]
    ensures Patched(t, map[]) == t
  {
    UpdateRulesMeaning(map[]);
  }

  /**
   * The update rules admit a null title, and the update then clears it:
   * the title that create requires is not kept by update.
   */
  lemma UpdateMayClearTitle(t: Todo)
    ensures Validate(Modify, map[TitleField := Null]) == map[]
    ensures Patched(t, map[TitleField := Null]).title.None?
  {
    UpdateRulesMeaning(map[TitleField := Null]);
  }

  /** The todos table with its auto-increment counter. */
  class TodoTable {
    var rows: map<int, Todo>
    var nextId: int

    ghost predicate Valid()
      reads this
    {
      1 <= nextId && WellKeyed(rows, nextId)
    }

    constructor ()
      ensures Valid() && rows == map[] && nextId == 1
    {
      rows := map[];
      nextId := 1;
    }

    /** GET /api/todos: always 200 with the listing of the query. */
    method Index(q: Query) returns (r: Response)
      requires Valid()
      ensures r.Ok? && r.code == 200 && r.body.Many?
      ensures IsListing(rows, q, r.body.todos)
    {
      var todos := ListTodos(rows, nextId, q);
      r := Ok(200, Many(todos));
    }

    /**
     * POST /api/todos: on a validation failure 422 with the error bag and the
     * table unchanged; otherwise 201 with one new row under a fresh id.
     */
    method Store(p: Payload) returns (r: Response)
      requires Valid()
      modifies this
      ensures Valid()
      ensures Validate(Create, p) != map[] ==>
        r == Err(422, Validate(Create, p)) && rows == old(rows) && nextId == old(nextId)
      ensures Validate(Create, p) == map[] ==>
        && old(nextId) !in old(rows)
        && rows == old(rows)[old(nextId) := Created(old(nextId), p)]
        && |rows| == |old(rows)| + 1
        && nextId > old(nextId)
        && r == Ok(201, One(rows[old(nextId)]))
    {
      var errors := Validate(Create, p);
      if errors != map[] {
        r := Err(422, errors);
        return;
      }
      var id := nextId;
      var t := Created(id, p);
      rows := rows[id := t];
      nextId := nextId + 1;
      r := Ok(201, One(t));
    }

    /** GET /api/todos/{id}: 200 with the row, or 404 "Todo not found". */
    method Show(id: int) returns (r: Response)
      requires Valid()
      ensures id in rows ==> r == Ok(200, One(rows[id]))
      ensures id !in rows ==> r == NotFound(NotFoundMessage)
    {
      if id in rows {
        r := Ok(200, One(rows[id]));
      } else {
        r := NotFound(NotFoundMessage);
      }
    }

    /**
     * PUT /api/todos/{id}: a missing id fails before validation; a validation
     * failure answers 422 and changes nothing; otherwise the supplied fields
     * of that one row are overwritten and the row is returned.
     */
    method Update(id: int, p: Payload) returns (r: Response)
      requires Valid()
      modifies this
      ensures Valid() && nextId == old(nextId)
      ensures id !in old(rows) ==> r == LookupFailure(id) && rows == old(rows)
      ensures id in old(rows) && Validate(Modify, p) != map[] ==>
        r == Err(422, Validate(Modify, p)) && rows == old(rows)
      ensures id in old(rows) && Validate(Modify, p) == map[] ==>
        && rows == old(rows)[id := Patched(old(rows)[id], p)]
        && r == Ok(200, One(rows[id]))
    {
      if id !in rows {
        r := LookupFailure(id);
        return;
      }
      var t := rows[id];
      var errors := Validate(Modify, p);
      if errors != map[] {
        r := Err(422, errors);
        return;
      }
      var updated := Patched(t, p);
      rows := rows[id := updated];
      r := Ok(200, One(updated));
    }

    /** DELETE /api/todos/{id}: a missing id fails; otherwise exactly that row goes. */
    method Destroy(id: int) returns (r: Response)
      requires Valid()
      modifies this
      ensures Valid() && nextId == old(nextId)
      ensures id !in old(rows) ==> r == LookupFailure(id) && rows == old(rows)
      ensures id in old(rows) ==>
        && rows == old(rows) - {id}
        && |rows| == |old(rows)| - 1
        && r == Ok(200, Message(DeletedMessage))
    {
      if id !in rows {
        r := LookupFailure(id);
        return;
      }
      rows := rows - {id};
      r := Ok(200, Message(DeletedMessage));
    }
  }

  /** A created todo is found by show under its new id, with the supplied fields. */
  method StoreThenShow(table: TodoTable, p: Payload) returns (created: Response, shown: Response)
    requires table.Valid() && StoreAcceptable(p)
    modifies table
    ensures created.Ok? && created.code == 201 && created.body.One?
    ensures shown == Ok(200, created.body)
    ensures created.body.todo.title == Some(p[TitleField].text)
    ensures WritesText(created.body.todo.details, p, DetailsField)
    ensures WritesStatus(created.body.todo.status, p)
  {
    StoreRulesMeaning(p);
    created := table.Store(p);
    CreatedReadsBack(created.body.todo.id, p);
    shown := table.Show(created.body.todo.id);
  }

  /** After a successful delete, show of that id answers 404 "Todo not found". */
  method DestroyThenShow(table: TodoTable, id: int) returns (deleted: Response, shown: Response)
    requires table.Valid()
    modifies table
    ensures deleted.Ok? <==> id in old(table.rows)
    ensures shown == NotFound(NotFoundMessage)
  {
    deleted := table.Destroy(id);
    shown := table.Show(id);
  }

  /** The same update applied twice answers the same and leaves the state of one application. */
  method UpdateTwice(table: TodoTable, id: int, p: Payload) returns (first: Response, second: Response)
    requires table.Valid()
    modifies table
    ensures first == second
    ensures table.rows == if id in old(table.rows) && Validate(Modify, p) == map[]
                          then old(table.rows)[id := Patched(old(table.rows)[id], p)]
                          else old(table.rows)
  {
    first := table.Update(id, p);
    if id in table.rows && Validate(Modify, p) == map[] {
      PatchIdempotent(table.rows[id], p);
    }
    second := table.Update(id, p);
  }

  /** A completed todo just created is listed by `?status=completed`. */
  method StoreThenFilterByStatus(table: TodoTable) returns (created: Response, listed: Response)
    requires table.Valid()
    modifies table
    ensures created.Ok? && created.body.One? && listed.Ok? && listed.body.Many?
    ensures created.body.todo in listed.body.todos
  {
    var p := map[TitleField := Str("Test Todo"), DetailsField := Str("Test Details"), StatusField := Str("completed")];
    assert !Blank("Test Todo") by { assert !IsTrimmed("Test Todo"[0]); }
    StoreRulesMeaning(p);
    created := table.Store(p);
    listed := table.Index(Query(Some("completed"), None, None, None));
  }
}
