/** The record shapes of the Next.js front end (frontend/src/lib/types.ts). */
module NovelTypes {
  import opened Wrappers

  /** A novel row. `episodes` is an informational count, not tied to any episode list. */
  datatype Novel = Novel(
    id: int,
    title: string,
    summary: string,
    author: string,
    updatedAt: string,
    episodes: int,
    genre: Option<string>,
    tags: Option<seq<string>>,
    createdAt: string)

  datatype Paragraph = Paragraph(id: int, text: string)

  /** The episode shape of types.ts, used by the test fixtures. */
  datatype Episode = Episode(
    id: int,
    novelId: int,
    title: string,
    postDate: string,
    content: seq<Paragraph>,
    order: int,
    createdAt: string)

  /** Every field optional; an absent or empty one applies no filter. */
  datatype SearchParams = SearchParams(query: Option<string>, genre: Option<string>, author: Option<string>)

  /** A 1-based page number and a page size. */
  datatype PaginationParams = PaginationParams(page: int, limit: int)

  /** The `{ data, error }` pair every query function returns; an error is kept as its message. */
  datatype Reply<T> = Reply(data: Option<T>, error: Option<string>)

  const NoSearch := SearchParams(None, None, None)

  /** The pagination the list functions are designed for: page at least 1, size not negative. */
  predicate ValidPagination(p: Option<PaginationParams>) {
    p.Some? ==> p.value.page >= 1 && p.value.limit >= 0
  }
}
