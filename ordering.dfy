/**
 * The order `orderBy(sort_by, sort_direction)` asks the database for: a
 * column of the todos table, ascending or descending. Strings compare by
 * code point (a binary collation), and NULL sorts before every string.
 */
module Ordering {
  import opened Wrappers
  import opened Todos

  /** The columns `sort_by` may name. */
  datatype SortKey = ById | ByTitle | ByDetails | ByStatus

  datatype Direction = Asc | Desc

  /** Lexicographic order on strings; a prefix sorts before its extensions. */
  predicate TextLe(s: string, t: string)
    decreases |s|
  {
    if s == [] then true
    else if t == [] then false
    else if s[0] != t[0] then s[0] < t[0]
    else TextLe(s[1..], t[1..])
  }

  lemma {:induction false} TextLeTotal(s: string, t: string)
    ensures TextLe(s, t) || TextLe(t, s)
    decreases |s|
  {
    if s != [] && t != [] && s[0] == t[0] {
      TextLeTotal(s[1..], t[1..]);
    }
  }

  lemma {:induction false} TextLeTransitive(s: string, t: string, u: string)
    requires TextLe(s, t) && TextLe(t, u)
    ensures TextLe(s, u)
    decreases |s|
  {
    if s != [] && t != [] && u != [] && s[0] == t[0] && t[0] == u[0] {
      TextLeTransitive(s[1..], t[1..], u[1..]);
    }
  }

  lemma {:induction false} TextLeAntisymmetric(s: string, t: string)
    requires TextLe(s, t) && TextLe(t, s)
    ensures s == t
    decreases |s|
  {
    if s != [] && t != [] {
      TextLeAntisymmetric(s[1..], t[1..]);
    }
  }

  /** The order of a nullable string column: NULL first. */
  predicate NullableLe(a: Option<string>, b: Option<string>) {
    a.None? || (b.Some? && TextLe(a.value, b.value))
  }

  /** The `status` column holds the status's name. */
  function StatusText(s: Option<Status>): Option<string> {
    match s
    case None => None
    case Some(st) => Some(StatusName(st))
  }

  /** Ascending order on the chosen column. */
  predicate KeyLe(key: SortKey, a: Todo, b: Todo) {
    match key
    case ById => a.id <= b.id
    case ByTitle => NullableLe(a.title, b.title)
    case ByDetails => NullableLe(a.details, b.details)
    case ByStatus => NullableLe(StatusText(a.status), StatusText(b.status))
  }

  /** `a` may come before `b` in a listing ordered by `key` in direction `dir`. */
  predicate InOrder(key: SortKey, dir: Direction, a: Todo, b: Todo) {
    if dir == Asc then KeyLe(key, a, b) else KeyLe(key, b, a)
  }

  lemma InOrderTotal(key: SortKey, dir: Direction, a: Todo, b: Todo)
    ensures InOrder(key, dir, a, b) || InOrder(key, dir, b, a)
  {
    match key
    case ById =>
    case ByTitle => if a.title.Some? && b.title.Some? { TextLeTotal(a.title.value, b.title.value); }
    case ByDetails => if a.details.Some? && b.details.Some? { TextLeTotal(a.details.value, b.details.value); }
    case ByStatus =>
      var x, y := StatusText(a.status), StatusText(b.status);
      if x.Some? && y.Some? { TextLeTotal(x.value, y.value); }
  }

  lemma NullableLeTransitive(a: Option<string>, b: Option<string>, c: Option<string>)
    requires NullableLe(a, b) && NullableLe(b, c)
    ensures NullableLe(a, c)
  {
    if a.Some? {
      TextLeTransitive(a.value, b.value, c.value);
    }
  }

  lemma InOrderTransitive(key: SortKey, dir: Direction, a: Todo, b: Todo, c: Todo)
    requires InOrder(key, dir, a, b) && InOrder(key, dir, b, c)
    ensures InOrder(key, dir, a, c)
  {
    var (x, y, z) := if dir == Asc then (a, b, c) else (c, b, a);
    assert KeyLe(key, x, y) && KeyLe(key, y, z);
    match key
    case ById =>
    case ByTitle => NullableLeTransitive(x.title, y.title, z.title);
    case ByDetails => NullableLeTransitive(x.details, y.details, z.details);
    case ByStatus => NullableLeTransitive(StatusText(x.status), StatusText(y.status), StatusText(z.status));
  }

  /** Every earlier row may precede every later one. */
  ghost predicate Ordered(rows: seq<Todo>, key: SortKey, dir: Direction) {
    forall i, j :: 0 <= i < j < |rows| ==> InOrder(key, dir, rows[i], rows[j])
  }

  /** Puts `x` before the first row it may precede. */
  function Insert(x: Todo, rows: seq<Todo>, key: SortKey, dir: Direction): (r: seq<Todo>)
    ensures multiset(r) == multiset(rows) + multiset{x}
  {
    if rows == [] then [x]
    else if InOrder(key, dir, x, rows[0]) then [x] + rows
    else
      assert rows == [rows[0]] + rows[1..];
      [rows[0]] + Insert(x, rows[1..], key, dir)
  }

  lemma {:induction false} InsertOrdered(x: Todo, rows: seq<Todo>, key: SortKey, dir: Direction)
    requires Ordered(rows, key, dir)
    ensures Ordered(Insert(x, rows, key, dir), key, dir)
  {
    if rows == [] {
    } else if InOrder(key, dir, x, rows[0]) {
      var r := [x] + rows;
      forall i, j | 0 <= i < j < |r| ensures InOrder(key, dir, r[i], r[j]) {
        if i == 0 && j > 1 {
          InOrderTransitive(key, dir, x, rows[0], rows[j - 1]);
        }
      }
    } else {
      InOrderTotal(key, dir, x, rows[0]);
      var tail := rows[1..];
      InsertOrdered(x, tail, key, dir);
      HeadPrecedesInsert(x, rows, key, dir);
      ConsOrdered(rows[0], Insert(x, tail, key, dir), key, dir);
    }
  }

  /** When `x` comes after the head, the head may precede every row of `Insert(x, rows[1..])`. */
  lemma HeadPrecedesInsert(x: Todo, rows: seq<Todo>, key: SortKey, dir: Direction)
    requires rows != [] && Ordered(rows, key, dir) && InOrder(key, dir, rows[0], x)
    ensures forall y :: y in Insert(x, rows[1..], key, dir) ==> InOrder(key, dir, rows[0], y)
  {
    var tail := rows[1..];
    var rest := Insert(x, tail, key, dir);
    forall y | y in rest ensures InOrder(key, dir, rows[0], y) {
      assert y in multiset(rest);
      if y != x {
        assert y in multiset(tail);
        var k :| 0 <= k < |tail| && tail[k] == y;
        assert rows[k + 1] == y;
      }
    }
  }

  /** An ordered sequence stays ordered under a head that may precede all of it. */
  lemma ConsOrdered(h: Todo, rest: seq<Todo>, key: SortKey, dir: Direction)
    requires Ordered(rest, key, dir)
    requires forall y :: y in rest ==> InOrder(key, dir, h, y)
    ensures Ordered([h] + rest, key, dir)
  {
    var r := [h] + rest;
    forall i, j | 0 <= i < j < |r| ensures InOrder(key, dir, r[i], r[j]) {
      if i == 0 {
        assert r[j] == rest[j - 1];
        assert r[j] in rest;
      } else {
        assert r[i] == rest[i - 1] && r[j] == rest[j - 1];
      }
    }
  }

  /**
   * A reference ordering of `rows`: an insertion sort. Which of two rows
   * with equal keys comes first is the database's choice, so the listing
   * promises only what this function's contract states.
   */
  function SortRows(rows: seq<Todo>, key: SortKey, dir: Direction): (r: seq<Todo>)
    ensures multiset(r) == multiset(rows)
    ensures Ordered(r, key, dir)
  {
    if rows == [] then []
    else
      var sortedTail := SortRows(rows[1..], key, dir);
      InsertOrdered(rows[0], sortedTail, key, dir);
      assert rows == [rows[0]] + rows[1..];
      Insert(rows[0], sortedTail, key, dir)
  }
}
