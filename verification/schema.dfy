/** The schema step of `initialize_db`: create the table when it is missing,
    then add the `is_favorite` column when an older table lacks it. */
module Schema {
  import opened Wrappers

  /** The columns `CREATE TABLE IF NOT EXISTS snippets` declares, in order. */
  const CreatedColumns: seq<string> := ["id", "title", "language", "tags", "code", "created_at"]

  const FavoriteColumn: string := "is_favorite"

  /** The column list `PRAGMA table_info(snippets)` reports after
      `initialize_db`, given the columns before it (None: no table yet). */
  function InitializeDb(existing: Option<seq<string>>): (cols: seq<string>)
    ensures FavoriteColumn in cols
    ensures var before := if existing.None? then CreatedColumns else existing.value;
            && before <= cols
            && |cols| == |before| + (if FavoriteColumn in before then 0 else 1)
  {
    var before := if existing.None? then CreatedColumns else existing.value;
    if FavoriteColumn in before then before else before + [FavoriteColumn]
  }

  /** Running the migration on an already migrated table changes nothing, so
      two runs give the same columns as one. */
  lemma InitializeDbIdempotent(existing: Option<seq<string>>)
    ensures InitializeDb(Some(InitializeDb(existing))) == InitializeDb(existing)
  {
  }

  /** A table that already has every column is left exactly as it is. */
  lemma CurrentSchemaUntouched(cols: seq<string>)
    requires FavoriteColumn in cols
    ensures InitializeDb(Some(cols)) == cols
  {
  }
}
