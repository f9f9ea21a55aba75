/** The one persisted entity: a row of the `snippets` table. */
module Snippets {

  /** A full row, as `SELECT *` returns it. `created_at` is a wall-clock
      timestamp and is not modelled. `isFavorite` is the integer column
      `is_favorite` (0 or 1 in every table the program builds). */
  datatype Snippet = Snippet(
    id: int,
    title: string,
    language: string,
    tags: string,
    code: string,
    isFavorite: int)

  /** The columns the list queries select: everything but `code`. */
  datatype Summary = Summary(
    id: int,
    title: string,
    language: string,
    tags: string,
    isFavorite: int)

  function Summarize(r: Snippet): Summary {
    Summary(r.id, r.title, r.language, r.tags, r.isFavorite)
  }

  /** The `WHERE is_favorite = 1` predicate. */
  predicate IsFavorite(z: Summary) {
    z.isFavorite == 1
  }
}
