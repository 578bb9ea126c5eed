/**
 * The listing endpoint's query composer: start from every todo, keep an
 * exact status match, keep rows whose title or details contain the search
 * term, and order by a column.
 */
module Listing {
  import opened Wrappers
  import opened Todos
  import opened Ordering

  /** The query parameters of the listing; None is a parameter the request does not have. */
  datatype Query = Query(status: Option<string>, search: Option<string>, sortBy: Option<SortKey>, sortDirection: Option<Direction>)

  const NoParameters: Query := Query(None, None, None, None)

  /** `sort_direction` defaults to ascending. */
  function DirectionOf(q: Query): (dir: Direction)
    ensures dir == Desc <==> q.sortDirection == Some(Desc)
  {
    q.sortDirection.GetOr(Asc)
  }

  predicate IsPrefix(prefix: string, s: string) {
    |prefix| <= |s| && s[..|prefix|] == prefix
  }

  /** `term` occurs somewhere in `s`. */
  predicate Contains(s: string, term: string)
    decreases |s|
  {
    IsPrefix(term, s) || (s != [] && Contains(s[1..], term))
  }

  /** `term` is the slice of `s` that starts at offset `i`. */
  predicate OccursAt(s: string, term: string, i: int) {
    0 <= i <= |s| - |term| && s[i..i + |term|] == term
  }

  /** Contains agrees with the positional reading: `term` occurs at some offset of `s`. */
  lemma {:induction false} ContainsAt(s: string, term: string)
    ensures Contains(s, term) <==> exists i :: OccursAt(s, term, i)
    decreases |s|
  {
    if IsPrefix(term, s) {
      assert OccursAt(s, term, 0);
    }
    if s != [] {
      ContainsAt(s[1..], term);
      if Contains(s[1..], term) {
        var i :| OccursAt(s[1..], term, i);
        assert s[1..][i..i + |term|] == s[i + 1..i + 1 + |term|];
        assert OccursAt(s, term, i + 1);
      }
      if i :| OccursAt(s, term, i) {
        if i > 0 {
          assert s[1..][i - 1..i - 1 + |term|] == s[i..i + |term|];
          assert OccursAt(s[1..], term, i - 1);
        } else {
          assert IsPrefix(term, s);
        }
      }
    } else {
      if i :| OccursAt(s, term, i) {
        assert IsPrefix(term, s);
      }
    }
  }

  /** SQL `column LIKE '%term%'` read as a substring test; a NULL column never matches. */
  predicate Like(column: Option<string>, term: string) {
    column.Some? && Contains(column.value, term)
  }

  /** `where('status', name)`. */
  predicate HasStatus(t: Todo, name: string) {
    t.status.Some? && StatusName(t.status.value) == name
  }

  /** The search group: title LIKE the term OR details LIKE the term. */
  predicate Mentions(t: Todo, term: string) {
    Like(t.title, term) || Like(t.details, term)
  }

  /** The where-clauses the query composes, ANDed. */
  predicate Selected(q: Query, t: Todo) {
    && (q.status.Some? ==> HasStatus(t, q.status.value))
    && (q.search.Some? ==> Mentions(t, q.search.value))
  }

  /** Each row occurs at most once. */
  ghost predicate Distinct(rows: seq<Todo>) {
    forall t :: multiset(rows)[t] <= 1
  }

  /**
   * What the listing returns: each selected row of the table exactly once
   * and nothing else, ordered by the sort column when `sort_by` is given.
   */
  ghost predicate IsListing(table: map<int, Todo>, q: Query, todos: seq<Todo>) {
    && (forall t :: t in todos ==> t.id in table && table[t.id] == t && Selected(q, t))
    && (forall k :: k in table && Selected(q, table[k]) ==> table[k] in todos)
    && Distinct(todos)
    && (q.sortBy.Some? ==> Ordered(todos, q.sortBy.value, DirectionOf(q)))
  }

  /** `where('status', name)` applied to a row sequence. */
  function WhereStatus(rows: seq<Todo>, name: string): (r: seq<Todo>)
    ensures forall t :: t in r <==> t in rows && HasStatus(t, name)
    ensures multiset(r) <= multiset(rows)
  {
    if rows == [] then []
    else
      assert rows == [rows[0]] + rows[1..];
      if HasStatus(rows[0], name) then [rows[0]] + WhereStatus(rows[1..], name)
      else WhereStatus(rows[1..], name)
  }

  /** The search group applied to a row sequence. */
  function WhereMentions(rows: seq<Todo>, term: string): (r: seq<Todo>)
    ensures forall t :: t in r <==> t in rows && Mentions(t, term)
    ensures multiset(r) <= multiset(rows)
  {
    if rows == [] then []
    else
      assert rows == [rows[0]] + rows[1..];
      if Mentions(rows[0], term) then [rows[0]] + WhereMentions(rows[1..], term)
      else WhereMentions(rows[1..], term)
  }

  /**
   * `Todo::query()`: every row of the table once. The model scans the ids
   * below `limit` in ascending order; the listing promises no order of its own.
   */
  method AllRows(table: map<int, Todo>, limit: int) returns (rows: seq<Todo>)
    requires WellKeyed(table, limit)
    ensures forall t :: t in rows ==> t.id in table && table[t.id] == t
    ensures forall k :: k in table ==> table[k] in rows
    ensures Distinct(rows)
  {
    rows := [];
    var id := 1;
    while id < limit
      invariant forall t :: t in rows ==> t.id in table && table[t.id] == t && t.id < id
      invariant forall k :: 1 <= k < id && k in table ==> table[k] in rows
      invariant Distinct(rows)
    {
      if id in table {
        var t := table[id];
        assert t !in rows;
        rows := rows + [t];
      }
      id := id + 1;
    }
  }

  /** Adding the status filter to a query without one narrows its listing accordingly. */
  lemma StatusStep(table: map<int, Todo>, q: Query, rows: seq<Todo>, name: string)
    requires IsListing(table, q, rows) && q.status.None? && q.sortBy.None?
    ensures IsListing(table, q.(status := Some(name)), WhereStatus(rows, name))
  {
    var r := WhereStatus(rows, name);
    forall t ensures multiset(r)[t] <= 1 {
      assert multiset(r)[t] <= multiset(rows)[t];
    }
  }

  /** Adding the search group to a query without one narrows its listing accordingly. */
  lemma SearchStep(table: map<int, Todo>, q: Query, rows: seq<Todo>, term: string)
    requires IsListing(table, q, rows) && q.search.None? && q.sortBy.None?
    ensures IsListing(table, q.(search := Some(term)), WhereMentions(rows, term))
  {
    var r := WhereMentions(rows, term);
    forall t ensures multiset(r)[t] <= 1 {
      assert multiset(r)[t] <= multiset(rows)[t];
    }
  }

  /** Ordering a listing keeps its rows and adds the requested order. */
  lemma SortStep(table: map<int, Todo>, q: Query, rows: seq<Todo>, key: SortKey, dir: Option<Direction>)
    requires IsListing(table, q, rows) && q.sortBy.None?
    ensures IsListing(table, q.(sortBy := Some(key), sortDirection := dir), SortRows(rows, key, dir.GetOr(Asc)))
  {
    var r := SortRows(rows, key, dir.GetOr(Asc));
    var q' := q.(sortBy := Some(key), sortDirection := dir);
    SameRows(table, q, rows, r);
    assert forall t :: Selected(q', t) == Selected(q, t);
    assert DirectionOf(q') == dir.GetOr(Asc);
  }

  /** A rearrangement of a listing holds the same rows, each once. */
  lemma SameRows(table: map<int, Todo>, q: Query, rows: seq<Todo>, r: seq<Todo>)
    requires IsListing(table, q, rows) && multiset(r) == multiset(rows)
    ensures forall t :: t in r ==> t.id in table && table[t.id] == t && Selected(q, t)
    ensures forall k :: k in table && Selected(q, table[k]) ==> table[k] in r
    ensures Distinct(r)
  {
    forall t | t in r ensures t in rows {
      assert t in multiset(rows);
    }
    forall k | k in table && Selected(q, table[k]) ensures table[k] in r {
      assert table[k] in multiset(r);
    }
  }

  /** The listing query, composed step by step as the controller builds it. */
  method ListTodos(table: map<int, Todo>, limit: int, q: Query) returns (todos: seq<Todo>)
    requires WellKeyed(table, limit)
    ensures IsListing(table, q, todos)
  {
    todos := AllRows(table, limit);
    ghost var built := NoParameters;
    assert IsListing(table, built, todos);
    if q.status.Some? {
      StatusStep(table, built, todos, q.status.value);
      todos := WhereStatus(todos, q.status.value);
    }
    built := built.(status := q.status);
    if q.search.Some? {
      SearchStep(table, built, todos, q.search.value);
      todos := WhereMentions(todos, q.search.value);
    }
    built := built.(search := q.search);
    if q.sortBy.Some? {
      SortStep(table, built, todos, q.sortBy.value, q.sortDirection);
      todos := SortRows(todos, q.sortBy.value, DirectionOf(q));
      built := q;
    } else {
      assert IsListing(table, built, todos);
    }
  }

  /**
   * The listing is determined up to order: two listings of the same table
   * and query are permutations of each other.
   */
  lemma ListingIsPermutation(table: map<int, Todo>, q: Query, a: seq<Todo>, b: seq<Todo>)
    requires IsListing(table, q, a) && IsListing(table, q, b)
    ensures multiset(a) == multiset(b)
  {
    forall t ensures multiset(a)[t] == multiset(b)[t] {
      if t in a || t in b {
        assert t in a && t in b;
      }
    }
  }

  /** Without parameters the listing holds every row of the table, each once. */
  lemma ListingWithoutParameters(table: map<int, Todo>, todos: seq<Todo>)
    requires IsListing(table, NoParameters, todos)
    ensures forall k :: k in table ==> multiset(todos)[table[k]] == 1
    ensures forall t :: t in todos ==> t.id in table && table[t.id] == t
  {
  }

  /**
   * With `status` given, the listing holds exactly the rows with that status
   * that the search filter keeps: none with another status, none missing.
   */
  lemma StatusFilterExact(table: map<int, Todo>, q: Query, todos: seq<Todo>, k: int)
    requires IsListing(table, q, todos) && q.status.Some?
    ensures forall t :: t in todos ==> t.status.Some? && StatusName(t.status.value) == q.status.value
    ensures k in table && HasStatus(table[k], q.status.value) && (q.search.Some? ==> Mentions(table[k], q.search.value)) ==> table[k] in todos
  {
  }

  /** A status outside the three names selects nothing. */
  lemma UnknownStatusSelectsNothing(name: string, t: Todo)
    requires name !in StatusNames
    ensures !HasStatus(t, name)
  {
  }

  /**
   * With `search` given, a row is listed iff it passes the status filter and
   * its title or its non-null details contains the term.
   */
  lemma SearchIsOrWithinAnd(table: map<int, Todo>, q: Query, todos: seq<Todo>, k: int)
    requires IsListing(table, q, todos) && q.search.Some? && k in table
    ensures table[k] in todos <==>
      && (q.status.Some? ==> HasStatus(table[k], q.status.value))
      && (Like(table[k].title, q.search.value) || Like(table[k].details, q.search.value))
  {
  }

  /** The empty term is contained in every string. */
  lemma {:induction false} ContainsEmpty(s: string)
    ensures Contains(s, "")
  {
    assert IsPrefix("", s);
  }

  /** The empty search term keeps every todo whose title or details is not NULL. */
  lemma EmptySearchKeepsAll(t: Todo)
    ensures Mentions(t, "") <==> t.title.Some? || t.details.Some?
  {
    if t.title.Some? { ContainsEmpty(t.title.value); }
    if t.details.Some? { ContainsEmpty(t.details.value); }
  }

  /** A todo titled "Test Todo" is found by `search=Test`. */
  lemma SearchFindsTestTodo(id: int, details: Option<string>, status: Option<Status>)
    ensures Selected(Query(None, Some("Test"), None, None), Todo(id, Some("Test Todo"), details, status))
  {
    assert IsPrefix("Test", "Test Todo");
  }
}
