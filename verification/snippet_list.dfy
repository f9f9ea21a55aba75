/** The snippet list on the left of the window: which rows it shows, the
    caption of each, and which one stays selected after a refresh. */
module SnippetList {
  import opened Wrappers
  import opened Snippets
  import opened Listing
  import Store
  import Editor
  import SqlLike

  /** One list entry: its caption and the id stored in its item data. */
  datatype Item = Item(id: int, caption: string)

  datatype View = View(items: seq<Item>, selected: Option<int>)

  const StarPrefix: string := "\U{2605} "

  /** A favourite is labelled with a star in front of its title. */
  function Label(z: Summary): (r: string)
    ensures z.isFavorite != 0 ==> r == StarPrefix + z.title
    ensures z.isFavorite == 0 ==> r == z.title
  {
    if z.isFavorite != 0 then StarPrefix + z.title else z.title
  }

  function Items(zs: seq<Summary>): (r: seq<Item>)
    ensures |r| == |zs|
    ensures forall i :: 0 <= i < |zs| ==> r[i] == Item(zs[i].id, Label(zs[i]))
  {
    seq(|zs|, i requires 0 <= i < |zs| => Item(zs[i].id, Label(zs[i])))
  }

  predicate Shows(items: seq<Item>, id: int) {
    exists i :: 0 <= i < |items| && items[i].id == id
  }

  /** `refresh_snippet_list`: the favourites list or the full list, one item
      per row in title order, and the open id re-selected when it is among
      them. */
  function RefreshSnippetList(s: Editor.Session, t: Store.Table): (v: View)
    ensures var rows := if s.favoritesOnly then Store.GetFavoriteSnippets(t) else Store.GetAllSnippets(t);
            && |v.items| == |rows|
            && forall i :: 0 <= i < |rows| ==> v.items[i].id == rows[i].id && v.items[i].caption == Label(rows[i])
    ensures v.selected.Some? <==> s.currentId.Some? && Shows(v.items, s.currentId.value)
    ensures v.selected.Some? ==> v.selected == s.currentId
  {
    var rows := if s.favoritesOnly then Store.GetFavoriteSnippets(t) else Store.GetAllSnippets(t);
    var items := Items(rows);
    View(items, if s.currentId.Some? && Shows(items, s.currentId.value) then s.currentId else None)
  }

  /** With the full list shown, the open snippet stays selected whenever its
      row still exists. */
  lemma OpenRowStaysSelected(s: Editor.Session, t: Store.Table)
    requires !s.favoritesOnly && s.currentId.Some?
    requires Store.GetSnippetById(t, s.currentId.value).Some?
    ensures RefreshSnippetList(s, t).selected == s.currentId
  {
    var id := s.currentId.value;
    Store.AllSnippetsExactlyOnce(t);
    var z := Summarize(Store.GetSnippetById(t, id).value);
    var rows := Store.GetAllSnippets(t);
    assert z in rows;
    var i :| 0 <= i < |rows| && rows[i] == z;
    assert RefreshSnippetList(s, t).items[i].id == id;
  }

  /** The open id names a stored row that is not a favourite. */
  predicate NonFavoriteOpen(s: Editor.Session, t: Store.Table) {
    && s.currentId.Some?
    && Store.GetSnippetById(t, s.currentId.value).Some?
    && !IsFavorite(Summarize(Store.GetSnippetById(t, s.currentId.value).value))
  }

  /** Each entry of the favourites list is the summary of the stored row with its id. */
  lemma FavoritesAreStoredRows(t: Store.Table)
    ensures forall z :: z in Store.GetFavoriteSnippets(t) ==>
      Store.GetSnippetById(t, z.id).Some? && Summarize(Store.GetSnippetById(t, z.id).value) == z && IsFavorite(z)
  {
    forall z | z in Store.GetFavoriteSnippets(t)
      ensures Store.GetSnippetById(t, z.id).Some? && Summarize(Store.GetSnippetById(t, z.id).value) == z
    {
      var j :| 0 <= j < |t.rows| && Store.Summaries(t.rows)[j] == z;
      Store.FindRow(t.rows, j);
    }
  }

  /** With the favourites filter on, every item is a starred favourite, and a
      row that is not a favourite is never selected. */
  lemma FavoritesViewIsStarred(s: Editor.Session, t: Store.Table)
    requires s.favoritesOnly
    ensures var v := RefreshSnippetList(s, t);
            && (forall i :: 0 <= i < |v.items| ==> |StarPrefix| <= |v.items[i].caption| && v.items[i].caption[..|StarPrefix|] == StarPrefix)
            && (NonFavoriteOpen(s, t) ==> v.selected.None?)
  {
    var v := RefreshSnippetList(s, t);
    var rows := Store.GetFavoriteSnippets(t);
    FavoritesAreStoredRows(t);
    forall i | 0 <= i < |v.items|
      ensures |StarPrefix| <= |v.items[i].caption| && v.items[i].caption[..|StarPrefix|] == StarPrefix
      ensures Store.GetSnippetById(t, v.items[i].id).Some? && IsFavorite(Summarize(Store.GetSnippetById(t, v.items[i].id).value))
    {
      assert rows[i] in rows;
      assert v.items[i].caption == StarPrefix + rows[i].title;
    }
  }

  /** `MainWindow.search_snippets`: the search result as list items, without
      re-selecting anything. */
  function SearchView(t: Store.Table, query: string, favoritesOnly: bool): (r: seq<Item>)
    ensures var rows := Store.SearchSnippets(t, query, favoritesOnly);
            && |r| == |rows|
            && forall i :: 0 <= i < |rows| ==> r[i].id == rows[i].id && r[i].caption == Label(rows[i])
  {
    Items(Store.SearchSnippets(t, query, favoritesOnly))
  }

  /** The open id stays selected after a refresh exactly when its row still
      exists and, with the favourites filter on, is a favourite. */
  lemma RefreshSelection(s: Editor.Session, t: Store.Table)
    ensures RefreshSnippetList(s, t).selected ==
      if && s.currentId.Some?
         && Store.GetSnippetById(t, s.currentId.value).Some?
         && (!s.favoritesOnly || IsFavorite(Summarize(Store.GetSnippetById(t, s.currentId.value).value)))
      then s.currentId else None
  {
    var v := RefreshSnippetList(s, t);
    var rows := if s.favoritesOnly then Store.GetFavoriteSnippets(t) else Store.GetAllSnippets(t);
    Store.AllSnippetsExactlyOnce(t);
    FavoritesAreStoredRows(t);
    if v.selected.Some? {
      var i :| 0 <= i < |v.items| && v.items[i].id == s.currentId.value;
      assert rows[i] in rows;
    }
    if s.currentId.Some? && Store.GetSnippetById(t, s.currentId.value).Some? {
      var row := Store.GetSnippetById(t, s.currentId.value).value;
      var z := Summarize(row);
      if !s.favoritesOnly || IsFavorite(z) {
        assert z in rows by {
          var j :| 0 <= j < |t.rows| && t.rows[j] == row;
          assert Store.Summaries(t.rows)[j] == z;
        }
        var i :| 0 <= i < |rows| && rows[i] == z;
        assert v.items[i].id == s.currentId.value;
      }
    }
  }

  /** Every item of a refreshed list names a stored row (a favourite when the
      filter is on) and is captioned with that row's label; with the filter
      off, every stored row has an item. */
  lemma RefreshListsStoredRows(s: Editor.Session, t: Store.Table)
    ensures var v := RefreshSnippetList(s, t);
            && (forall i :: 0 <= i < |v.items| ==>
                  && Store.GetSnippetById(t, v.items[i].id).Some?
                  && v.items[i].caption == Label(Summarize(Store.GetSnippetById(t, v.items[i].id).value))
                  && (s.favoritesOnly ==> IsFavorite(Summarize(Store.GetSnippetById(t, v.items[i].id).value))))
            && (!s.favoritesOnly ==> forall id :: Store.GetSnippetById(t, id).Some? ==> Shows(v.items, id))
  {
    var v := RefreshSnippetList(s, t);
    var rows := if s.favoritesOnly then Store.GetFavoriteSnippets(t) else Store.GetAllSnippets(t);
    Store.AllSnippetsExactlyOnce(t);
    FavoritesAreStoredRows(t);
    forall i | 0 <= i < |v.items|
      ensures && Store.GetSnippetById(t, v.items[i].id).Some?
              && v.items[i].caption == Label(Summarize(Store.GetSnippetById(t, v.items[i].id).value))
              && (s.favoritesOnly ==> IsFavorite(Summarize(Store.GetSnippetById(t, v.items[i].id).value)))
    {
      assert rows[i] in rows;
    }
    if !s.favoritesOnly {
      forall id | Store.GetSnippetById(t, id).Some? ensures Shows(v.items, id) {
        RefreshSelection(s.(currentId := Some(id)), t);
      }
    }
  }

  /** The favourites view is the full view with the non-favourite items
      dropped: switching the filter on narrows the list, in the same order,
      and switching it back restores the session. */
  lemma FilterFavoritesNarrowsList(a: Editor.App)
    ensures RefreshSnippetList(Editor.FilterFavorites(a, false).session, a.table).items
         == Items(Store.GetAllSnippets(a.table))
    ensures RefreshSnippetList(Editor.FilterFavorites(a, true).session, a.table).items
         == Items(Filter(Store.GetAllSnippets(a.table), IsFavorite))
    ensures Editor.FilterFavorites(Editor.FilterFavorites(a, true), a.session.favoritesOnly) == a
  {
    Store.FavoritesAreFilteredAll(a.table);
  }

  /** Every item of the search view names a stored row whose title, tags or
      language matches the query (a favourite when asked), captioned with that
      row's label, and every such row has an item. For a query without `%` or
      `_`, matching is containing the query, ignoring ASCII case. */
  lemma SearchViewListsMatches(t: Store.Table, q: string, favoritesOnly: bool)
    ensures var r := SearchView(t, q, favoritesOnly);
            && (forall i :: 0 <= i < |r| ==>
                  && Store.GetSnippetById(t, r[i].id).Some?
                  && Store.Selected(Summarize(Store.GetSnippetById(t, r[i].id).value), q, favoritesOnly)
                  && r[i].caption == Label(Summarize(Store.GetSnippetById(t, r[i].id).value)))
            && (forall id ::
                  (Store.GetSnippetById(t, id).Some? &&
                   Store.Selected(Summarize(Store.GetSnippetById(t, id).value), q, favoritesOnly))
                  ==> Shows(r, id))
    ensures SqlLike.NoWildcards(q) ==>
      var r := SearchView(t, q, favoritesOnly);
      forall i :: 0 <= i < |r| ==>
        var z := Summarize(Store.GetSnippetById(t, r[i].id).value);
        SqlLike.ContainsFolded(z.title, q) || SqlLike.ContainsFolded(z.tags, q) || SqlLike.ContainsFolded(z.language, q)
  {
    var r := SearchView(t, q, favoritesOnly);
    var rows := Store.SearchSnippets(t, q, favoritesOnly);
    forall i | 0 <= i < |r|
      ensures && Store.GetSnippetById(t, r[i].id).Some?
              && Summarize(Store.GetSnippetById(t, r[i].id).value) == rows[i]
    {
      assert rows[i] in rows;
      var j :| 0 <= j < |t.rows| && Store.Summaries(t.rows)[j] == rows[i];
      Store.FindRow(t.rows, j);
    }
    forall id | Store.GetSnippetById(t, id).Some? &&
        Store.Selected(Summarize(Store.GetSnippetById(t, id).value), q, favoritesOnly)
      ensures Shows(r, id)
    {
      var row := Store.GetSnippetById(t, id).value;
      var j :| 0 <= j < |t.rows| && t.rows[j] == row;
      assert Store.Summaries(t.rows)[j] == Summarize(row);
      var i :| 0 <= i < |rows| && rows[i] == Summarize(row);
      assert r[i].id == id;
    }
    if SqlLike.NoWildcards(q) {
      Store.SearchIsSubstringSearch(t, q, favoritesOnly);
      forall i | 0 <= i < |r|
        ensures var z := Summarize(Store.GetSnippetById(t, r[i].id).value);
                SqlLike.ContainsFolded(z.title, q) || SqlLike.ContainsFolded(z.tags, q) || SqlLike.ContainsFolded(z.language, q)
      {
        assert rows[i] in rows;
      }
    }
  }
}
