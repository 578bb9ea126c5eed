/**
 * The single entity of the service, a todo item, and the raw request values
 * the controller receives for it.
 */
module Todos {
  import opened Wrappers

  /** The three values allowed by the `in:` rule of the status field. */
  datatype Status = Completed | InProgress | NotStarted

  /** The choices of `in:completed,in_progress,not_started`, in rule order. */
  const StatusNames: seq<string> := ["completed", "in_progress", "not_started"]

  /** Reads a status name as stored in the `status` column. */
  function ParseStatus(name: string): (r: Option<Status>)
    ensures r.Some? <==> name in StatusNames
  {
    if name == "completed" then Some(Completed)
    else if name == "in_progress" then Some(InProgress)
    else if name == "not_started" then Some(NotStarted)
    else None
  }

  /** The text of a status in the `status` column and in JSON. */
  function StatusName(s: Status): (name: string)
    ensures name in StatusNames
    ensures ParseStatus(name) == Some(s)
  {
    match s
    case Completed => "completed"
    case InProgress => "in_progress"
    case NotStarted => "not_started"
  }

  /**
   * A row of the todos table. `title` and `details` may be NULL: the
   * update rules admit a null title. A NULL or never-supplied status is None.
   */
  datatype Todo = Todo(id: int, title: Option<string>, details: Option<string>, status: Option<Status>)

  /** The three fillable fields the controller passes to `only([...])`. */
  datatype Field = TitleField | DetailsField | StatusField

  const AllFields: set<Field> := {TitleField, DetailsField, StatusField}

  /**
   * A decoded JSON request value. `Scalar` is a number or boolean and `List`
   * an array or object; their `size` and `count` are what Laravel's `max:`
   * rule measures for them (the length of the number's text, the element count).
   */
  datatype Value = Null | Str(text: string) | Scalar(size: nat) | List(count: nat)

  /** The request body restricted to the known fields; a missing key is an absent field. */
  type Payload = map<Field, Value>

  /**
   * A table keyed by id: each row carries its own key, and every key lies
   * below `limit`, the next id the auto-increment counter will hand out.
   * (Ids start at 1.)
   */
  ghost predicate WellKeyed(table: map<int, Todo>, limit: int) {
    forall k :: k in table ==> table[k].id == k && 1 <= k < limit
  }
}
