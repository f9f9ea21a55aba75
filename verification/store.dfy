/** The `snippets` table and the operations of the database module, each one
    SQL statement (or, for the favourite toggle, a read followed by a write)
    over an abstract table. */
module Store {
  import opened Wrappers
  import opened Snippets
  import opened Listing
  import SqlLike

  predicate IsFlag(f: int) {
    f == 0 || f == 1
  }

  predicate IncreasingIds(rows: seq<Snippet>) {
    forall i, j :: 0 <= i < j < |rows| ==> rows[i].id < rows[j].id
  }

  /** What SQLite keeps true of an `INTEGER PRIMARY KEY AUTOINCREMENT` table
      that only this program writes: rows sit in rowid order, ids are positive,
      strictly increasing and never above the largest id ever handed out, and
      `is_favorite` is 0 or 1. */
  predicate Valid(rows: seq<Snippet>, lastId: int) {
    && IncreasingIds(rows)
    && forall i :: 0 <= i < |rows| ==> 1 <= rows[i].id <= lastId && IsFlag(rows[i].isFavorite)
  }

  /** `lastId` is the table's entry in `sqlite_sequence`: the largest id ever
      assigned, kept even after that row is deleted. */
  datatype RawTable = RawTable(rows: seq<Snippet>, lastId: nat)

  type Table = t: RawTable | Valid(t.rows, t.lastId) witness RawTable([], 0)

  const EmptyTable: Table := RawTable([], 0)

  /** On a freshly created table, ids are handed out from 1 upward and no
      earlier id exists. */
  lemma FirstInsertGetsIdOne(title: string, language: string, tags: string, code: string)
    ensures var r := AddSnippet(EmptyTable, title, language, tags, code);
            && r.lastId == 1
            && GetSnippetById(r, 1) == Some(Snippet(1, title, language, tags, code, 0))
            && forall id :: id != 1 ==> GetSnippetById(r, id).None?
  {
  }

  datatype StoreError = NoSuchRow(id: int)

  function Find(rows: seq<Snippet>, id: int): (r: Option<Snippet>)
    ensures r.Some? ==> r.value in rows && r.value.id == id
    ensures r.None? <==> forall i :: 0 <= i < |rows| ==> rows[i].id != id
  {
    if |rows| == 0 then None
    else if rows[0].id == id then Some(rows[0])
    else Find(rows[1..], id)
  }

  /** In a table with distinct ids, looking up a row's id finds that row. */
  lemma {:induction false} FindRow(rows: seq<Snippet>, i: int)
    requires IncreasingIds(rows) && 0 <= i < |rows|
    ensures Find(rows, rows[i].id) == Some(rows[i])
    decreases |rows|
  {
    if i > 0 {
      FindRow(rows[1..], i - 1);
    }
  }

  lemma {:induction false} FindAppend(rows: seq<Snippet>, x: Snippet, id: int)
    ensures Find(rows + [x], id)
         == if Find(rows, id).Some? then Find(rows, id) else if x.id == id then Some(x) else None
    decreases |rows|
  {
    if |rows| > 0 {
      assert (rows + [x])[1..] == rows[1..] + [x];
      FindAppend(rows[1..], x, id);
    }
  }

  /** The rows after `UPDATE ... WHERE id = row.id` sets them all to `row`. */
  function Replace(rows: seq<Snippet>, row: Snippet): (r: seq<Snippet>)
    ensures |r| == |rows|
    ensures forall i :: 0 <= i < |rows| ==> r[i] == if rows[i].id == row.id then row else rows[i]
  {
    seq(|rows|, i requires 0 <= i < |rows| => if rows[i].id == row.id then row else rows[i])
  }

  lemma {:induction false} FindReplace(rows: seq<Snippet>, row: Snippet, id: int)
    ensures Find(Replace(rows, row), id)
         == if id == row.id && Find(rows, id).Some? then Some(row) else Find(rows, id)
    decreases |rows|
  {
    if |rows| > 0 {
      assert Replace(rows, row)[1..] == Replace(rows[1..], row);
      FindReplace(rows[1..], row, id);
    }
  }

  /** The rows after `DELETE ... WHERE id = id`. */
  function Remove(rows: seq<Snippet>, id: int): (r: seq<Snippet>)
    ensures forall x :: x in r ==> x in rows
    ensures IncreasingIds(rows) ==> IncreasingIds(r)
    ensures (forall i :: 0 <= i < |rows| ==> rows[i].id != id) ==> r == rows
    ensures forall k :: Find(r, k) == if k == id then None else Find(rows, k)
  {
    if |rows| == 0 then []
    else
      var rest := Remove(rows[1..], id);
      if rows[0].id == id then rest
      else
        assert ([rows[0]] + rest)[1..] == rest;
        assert rows == [rows[0]] + rows[1..];
        assert IncreasingIds(rows) ==> IncreasingIds([rows[0]] + rest) by {
          if IncreasingIds(rows) {
            forall x | x in rest ensures rows[0].id < x.id {
              var k :| 0 <= k < |rows[1..]| && rows[1..][k] == x;
              assert rows[k + 1] == x;
            }
          }
        }
        [rows[0]] + rest
  }

  /** `get_snippet_by_id`: the row with that id, or None. */
  function GetSnippetById(t: Table, id: int): (r: Option<Snippet>)
    ensures r.Some? <==> exists i :: 0 <= i < |t.rows| && t.rows[i].id == id
    ensures r.Some? ==> r.value in t.rows && r.value.id == id
  {
    Find(t.rows, id)
  }

  /** `add_snippet`: inserts one row with a fresh id and `is_favorite = 0`;
      the new id is not returned. */
  function AddSnippet(t: Table, title: string, language: string, tags: string, code: string): (r: Table)
    ensures r.lastId == t.lastId + 1
    ensures forall i :: 0 <= i < |t.rows| ==> t.rows[i].id < r.lastId
    ensures GetSnippetById(t, r.lastId) == None
    ensures GetSnippetById(r, r.lastId) == Some(Snippet(r.lastId, title, language, tags, code, 0))
    ensures forall id :: id != r.lastId ==> GetSnippetById(r, id) == GetSnippetById(t, id)
  {
    var row := Snippet(t.lastId + 1, title, language, tags, code, 0);
    forall id ensures Find(t.rows + [row], id)
                   == if Find(t.rows, id).Some? then Find(t.rows, id) else if row.id == id then Some(row) else None {
      FindAppend(t.rows, row, id);
    }
    RawTable(t.rows + [row], t.lastId + 1)
  }

  /** `update_snippet`: overwrites title, language, tags and code of the row
      with that id; `is_favorite` and every other row stay as they were, and an
      absent id leaves the table unchanged. */
  function UpdateSnippet(t: Table, id: int, title: string, language: string, tags: string, code: string): (r: Table)
    ensures r.lastId == t.lastId
    ensures GetSnippetById(t, id).None? ==> r == t
    ensures GetSnippetById(t, id).Some? ==>
      GetSnippetById(r, id) == Some(GetSnippetById(t, id).value.(title := title, language := language, tags := tags, code := code))
    ensures forall k :: k != id ==> GetSnippetById(r, k) == GetSnippetById(t, k)
  {
    match Find(t.rows, id)
    case None => t
    case Some(prev) =>
      var row := prev.(title := title, language := language, tags := tags, code := code);
      assert IsFlag(row.isFavorite) by {
        var i :| 0 <= i < |t.rows| && t.rows[i] == prev;
      }
      forall k ensures Find(Replace(t.rows, row), k)
                    == if k == row.id && Find(t.rows, k).Some? then Some(row) else Find(t.rows, k) {
        FindReplace(t.rows, row, k);
      }
      RawTable(Replace(t.rows, row), t.lastId)
  }

  /** `delete_snippet`: removes the row with that id; an absent id is not an error. */
  function DeleteSnippet(t: Table, id: int): (r: Table)
    ensures r.lastId == t.lastId
    ensures GetSnippetById(r, id) == None
    ensures forall k :: k != id ==> GetSnippetById(r, k) == GetSnippetById(t, k)
    ensures GetSnippetById(t, id).None? ==> r == t
  {
    var rows := Remove(t.rows, id);
    assert forall i :: 0 <= i < |rows| ==> rows[i] in t.rows;
    RawTable(rows, t.lastId)
  }

  /** The result of a successful `toggle_favorite_status`. */
  datatype Toggled = Toggled(table: Table, status: int)

  /** `toggle_favorite_status`: reads the flag, writes `1 - flag` and returns
      it. On a missing row `fetchone()` yields None and subscripting it raises. */
  function ToggleFavoriteStatus(t: Table, id: int): (r: Result<Toggled, StoreError>)
    ensures r.Err? <==> GetSnippetById(t, id).None?
    ensures r.Err? ==> r.error == NoSuchRow(id)
    ensures r.Ok? ==>
      var prev := GetSnippetById(t, id).value;
      && r.value.status == 1 - prev.isFavorite
      && IsFlag(r.value.status)
      && GetSnippetById(r.value.table, id) == Some(prev.(isFavorite := r.value.status))
      && r.value.table.lastId == t.lastId
      && forall k :: k != id ==> GetSnippetById(r.value.table, k) == GetSnippetById(t, k)
  {
    match Find(t.rows, id)
    case None => Err(NoSuchRow(id))
    case Some(prev) =>
      assert IsFlag(prev.isFavorite) by {
        var i :| 0 <= i < |t.rows| && t.rows[i] == prev;
      }
      var status := 1 - prev.isFavorite;
      var row := prev.(isFavorite := status);
      forall k ensures Find(Replace(t.rows, row), k)
                    == if k == row.id && Find(t.rows, k).Some? then Some(row) else Find(t.rows, k) {
        FindReplace(t.rows, row, k);
      }
      Ok(Toggled(RawTable(Replace(t.rows, row), t.lastId), status))
  }

  /** Toggling twice returns the first flag and restores the table exactly. */
  lemma ToggleTwiceRestores(t: Table, id: int)
    requires GetSnippetById(t, id).Some?
    ensures var once := ToggleFavoriteStatus(t, id).value;
            var twice := ToggleFavoriteStatus(once.table, id);
            && twice.Ok?
            && twice.value.status == GetSnippetById(t, id).value.isFavorite
            && twice.value.table == t
  {
    var prev := Find(t.rows, id).value;
    var once := ToggleFavoriteStatus(t, id).value;
    var row1 := prev.(isFavorite := 1 - prev.isFavorite);
    assert once.table.rows == Replace(t.rows, row1);
    var twice := ToggleFavoriteStatus(once.table, id);
    assert twice.value.table.rows == Replace(Replace(t.rows, row1), prev);
    assert Replace(Replace(t.rows, row1), prev) == t.rows by {
      forall i | 0 <= i < |t.rows| ensures Replace(Replace(t.rows, row1), prev)[i] == t.rows[i] {
        if t.rows[i].id == id {
          FindRow(t.rows, i);
        }
      }
    }
  }

  /** The selected columns of every row, in rowid order. */
  function Summaries(rows: seq<Snippet>): (r: seq<Summary>)
    ensures |r| == |rows|
    ensures forall i :: 0 <= i < |rows| ==> r[i] == Summarize(rows[i])
  {
    seq(|rows|, i requires 0 <= i < |rows| => Summarize(rows[i]))
  }

  lemma SortedFilterMembers(xs: seq<Summary>, p: Summary -> bool)
    ensures forall z :: z in SortByTitle(Filter(xs, p)) <==> z in xs && p(z)
  {
    var ys := Filter(xs, p);
    assert forall z :: z in SortByTitle(ys) <==> z in multiset(ys);
  }

  /** `get_all_snippets`: every row's summary, ordered by title. */
  function GetAllSnippets(t: Table): (r: seq<Summary>)
    ensures SortedByTitle(r)
    ensures multiset(r) == multiset(Summaries(t.rows))
  {
    SortByTitle(Summaries(t.rows))
  }

  /** `get_favorite_snippets`: the summaries with `is_favorite = 1`, ordered by title. */
  function GetFavoriteSnippets(t: Table): (r: seq<Summary>)
    ensures SortedByTitle(r)
    ensures forall z :: z in r <==> z in Summaries(t.rows) && IsFavorite(z)
  {
    var xs := Filter(Summaries(t.rows), IsFavorite);
    assert forall z :: z in SortByTitle(xs) <==> z in multiset(xs);
    SortByTitle(xs)
  }

  /** `title LIKE ? OR tags LIKE ? OR language LIKE ?` with `%query%`. */
  predicate MatchesQuery(z: Summary, q: string) {
    var pat := SqlLike.SubstringPattern(q);
    SqlLike.Like(z.title, pat) || SqlLike.Like(z.tags, pat) || SqlLike.Like(z.language, pat)
  }

  /** The whole `WHERE` clause of the search. */
  predicate Selected(z: Summary, q: string, favoritesOnly: bool) {
    MatchesQuery(z, q) && (!favoritesOnly || IsFavorite(z))
  }

  function SearchFilter(q: string, favoritesOnly: bool): Summary -> bool {
    z => Selected(z, q, favoritesOnly)
  }

  /** `search_snippets`: the matching summaries (favourites only when asked),
      ordered by title. */
  function SearchSnippets(t: Table, q: string, favoritesOnly: bool): (r: seq<Summary>)
    ensures SortedByTitle(r)
    ensures forall z :: z in r <==> z in Summaries(t.rows) && Selected(z, q, favoritesOnly)
  {
    var p := SearchFilter(q, favoritesOnly);
    SortedFilterMembers(Summaries(t.rows), p);
    assert forall z :: p(z) == Selected(z, q, favoritesOnly);
    SortByTitle(Filter(Summaries(t.rows), p))
  }

  lemma {:induction false} CountSummaries(rows: seq<Snippet>, id: int)
    requires IncreasingIds(rows)
    ensures CountId(Summaries(rows), id) == if Find(rows, id).Some? then 1 else 0
    decreases |rows|
  {
    if |rows| > 0 {
      assert Summaries(rows)[1..] == Summaries(rows[1..]);
      CountSummaries(rows[1..], id);
      if rows[0].id == id {
        assert Find(rows[1..], id).None?;
      }
    }
  }

  /** Every row of the table is listed exactly once, carrying the stored
      values of its columns, and nothing else is listed. */
  lemma AllSnippetsExactlyOnce(t: Table)
    ensures forall id :: CountId(GetAllSnippets(t), id) == if GetSnippetById(t, id).Some? then 1 else 0
    ensures forall z :: z in GetAllSnippets(t) <==>
      GetSnippetById(t, z.id).Some? && z == Summarize(GetSnippetById(t, z.id).value)
  {
    forall id ensures CountId(GetAllSnippets(t), id) == if GetSnippetById(t, id).Some? then 1 else 0 {
      CountSort(Summaries(t.rows), id);
      CountSummaries(t.rows, id);
    }
    forall z ensures z in GetAllSnippets(t) <==>
      GetSnippetById(t, z.id).Some? && z == Summarize(GetSnippetById(t, z.id).value) {
      assert z in GetAllSnippets(t) <==> z in multiset(Summaries(t.rows));
      if z in Summaries(t.rows) {
        var i :| 0 <= i < |t.rows| && Summaries(t.rows)[i] == z;
        FindRow(t.rows, i);
      }
      if GetSnippetById(t, z.id).Some? && z == Summarize(GetSnippetById(t, z.id).value) {
        var i :| 0 <= i < |t.rows| && t.rows[i] == GetSnippetById(t, z.id).value;
        assert Summaries(t.rows)[i] == z;
      }
    }
  }

  /** The favourites list is the full list with the non-favourites dropped, in the same order. */
  lemma FavoritesAreFilteredAll(t: Table)
    ensures GetFavoriteSnippets(t) == Filter(GetAllSnippets(t), IsFavorite)
  {
    SortFilterCommute(Summaries(t.rows), IsFavorite);
  }

  /** Any search is the full list with the non-matching entries dropped, in
      the same order; so it lists every stored id at most once. */
  lemma SearchIsFilteredAll(t: Table, q: string, favoritesOnly: bool)
    ensures SearchSnippets(t, q, favoritesOnly) == Filter(GetAllSnippets(t), SearchFilter(q, favoritesOnly))
    ensures forall id :: CountId(SearchSnippets(t, q, favoritesOnly), id) <= if GetSnippetById(t, id).Some? then 1 else 0
  {
    SortFilterCommute(Summaries(t.rows), SearchFilter(q, favoritesOnly));
    AllSnippetsExactlyOnce(t);
    forall id ensures CountId(SearchSnippets(t, q, favoritesOnly), id) <= if GetSnippetById(t, id).Some? then 1 else 0 {
      CountFilter(GetAllSnippets(t), SearchFilter(q, favoritesOnly), id);
    }
  }

  /** Restricting a search to favourites keeps the unrestricted result's
      favourites, in the same order; so it is a subset of it, all favourites. */
  lemma FavoriteSearchIsFilteredSearch(t: Table, q: string)
    ensures SearchSnippets(t, q, true) == Filter(SearchSnippets(t, q, false), IsFavorite)
    ensures forall z :: z in SearchSnippets(t, q, true) ==> z in SearchSnippets(t, q, false) && IsFavorite(z)
  {
    var xs := Summaries(t.rows);
    SortFilterCommute(Filter(xs, SearchFilter(q, false)), IsFavorite);
    FilterTwice(xs, SearchFilter(q, false), IsFavorite, SearchFilter(q, true));
  }

  /** With the empty query every row matches, because the title is never
      NULL: the search returns the full list. */
  lemma EmptySearchIsAll(t: Table)
    ensures SearchSnippets(t, "", false) == GetAllSnippets(t)
  {
    var xs := Summaries(t.rows);
    forall z | z in xs ensures SearchFilter("", false)(z) {
      SqlLike.EmptyQueryMatchesAll(z.title);
    }
    FilterAll(xs, SearchFilter("", false));
  }

  /** For a query without `%` or `_`, the search returns exactly the listed
      rows in which the query occurs in title, tags or language, ignoring
      ASCII case. */
  lemma SearchIsSubstringSearch(t: Table, q: string, favoritesOnly: bool)
    requires SqlLike.NoWildcards(q)
    ensures forall z :: z in SearchSnippets(t, q, favoritesOnly) <==>
      && z in GetAllSnippets(t)
      && (SqlLike.ContainsFolded(z.title, q) || SqlLike.ContainsFolded(z.tags, q) || SqlLike.ContainsFolded(z.language, q))
      && (!favoritesOnly || IsFavorite(z))
  {
    forall z ensures MatchesQuery(z, q) <==>
      SqlLike.ContainsFolded(z.title, q) || SqlLike.ContainsFolded(z.tags, q) || SqlLike.ContainsFolded(z.language, q) {
      SqlLike.SubstringSearch(z.title, q);
      SqlLike.SubstringSearch(z.tags, q);
      SqlLike.SubstringSearch(z.language, q);
    }
    assert forall z :: z in GetAllSnippets(t) <==> z in multiset(Summaries(t.rows));
  }

  /** Ids are never reused: after any deletion, the next add still gets an id
      above every id the table ever held. */
  lemma DeletedIdIsNeverReused(t: Table, id: int, title: string, language: string, tags: string, code: string)
    requires GetSnippetById(t, id).Some?
    ensures AddSnippet(DeleteSnippet(t, id), title, language, tags, code).lastId > id
  {
  }
}
