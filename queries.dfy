/** The fixture branch of the query layer (frontend/src/lib/supabase/queries.ts): what
    `getNovelsList` and `getNovelDetail` return when no backing-store configuration is present,
    and the page arithmetic the live branch hands to the store. */
module Queries {
  import opened Wrappers
  import opened Seqs
  import opened Text
  import opened NovelTypes

  /** An episode object of the fixture array (not the `Episode` shape of types.ts). */
  datatype FixtureEpisode = FixtureEpisode(
    id: string,
    title: string,
    episodeNumber: int,
    publishedAt: string,
    novelId: int,
    content: string)

  /** The projection the detail view lists: id, title, number and publication time. */
  datatype EpisodeSummary = EpisodeSummary(id: string, title: string, episodeNumber: int, publishedAt: string)

  /** `{ ...novel, description, episodes }`: the novel's fields, its description, and the episode
      list, which overwrites the novel's own numeric `episodes` count, so the count is not kept. */
  datatype NovelDetail = NovelDetail(
    id: int,
    title: string,
    summary: string,
    author: string,
    updatedAt: string,
    genre: Option<string>,
    tags: Option<seq<string>>,
    createdAt: string,
    description: string,
    episodes: seq<EpisodeSummary>)

  /** The spread of `novel` with `description` and `episodes` written over it. */
  function Spread(n: Novel, description: string, episodes: seq<EpisodeSummary>): NovelDetail
  {
    NovelDetail(n.id, n.title, n.summary, n.author, n.updatedAt, n.genre, n.tags, n.createdAt, description, episodes)
  }

  /** The detail carries every field of `n` except its `episodes` count. */
  predicate CopiesNovel(d: NovelDetail, n: Novel)
  {
    && d.id == n.id && d.title == n.title && d.summary == n.summary && d.author == n.author
    && d.updatedAt == n.updatedAt && d.genre == n.genre && d.tags == n.tags && d.createdAt == n.createdAt
  }

  const FixtureNovels: seq<Novel> := [
    Novel(1, "異世界転生記",
      "普通の高校生が異世界に転生して冒険する物語です。魔法と剣の世界で、仲間たちと共に成長していく姿を描きます。",
      "山田太郎", "2025-07-10T12:00:00Z", 15, Some("ファンタジー"), Some(["異世界", "冒険", "成長"]),
      "2025-01-01T00:00:00Z"),
    Novel(2, "現代魔法使いの日常",
      "現代社会に隠れて生活する魔法使いの物語。日常の中にある小さな魔法を通して、人々との絆を描いています。",
      "佐藤花子", "2025-07-08T15:30:00Z", 8, Some("現代ファンタジー"), Some(["日常", "魔法", "現代"]),
      "2025-02-15T00:00:00Z"),
    Novel(3, "宇宙の果ての物語",
      "遥か未来の宇宙を舞台にしたSF小説。異星人との出会いや宇宙の謎を解き明かす冒険が始まります。",
      "田中一郎", "2025-07-12T09:15:00Z", 12, Some("SF"), Some(["宇宙", "未来", "冒険"]),
      "2025-03-01T00:00:00Z")
  ]

  const FixtureEpisodes: seq<FixtureEpisode> := [
    FixtureEpisode("ep1", "新たな始まり", 1, "2025-06-01T00:00:00Z", 1, "主人公が異世界に転生する第一話です..."),
    FixtureEpisode("ep2", "初めての仲間", 2, "2025-06-08T00:00:00Z", 1, "仲間との出会いを描く第二話です..."),
    FixtureEpisode("ep3", "試練の森", 3, "2025-06-15T00:00:00Z", 1, "森での試練を描く第三話です...")
  ]

  // ---------------------------------------------------------------- search filters

  predicate TitleMatches(query: string, n: Novel) { IncludesIgnoringCase(n.title, query) }

  predicate GenreMatches(genre: string, n: Novel) { n.genre == Some(genre) }

  predicate AuthorMatches(author: string, n: Novel) { IncludesIgnoringCase(n.author, author) }

  /** Reference definition of a search: a novel qualifies when it passes every filter whose
      parameter is present and non-empty. */
  predicate Matches(search: SearchParams, n: Novel) {
    && (Truthy(search.query) ==> TitleMatches(search.query.value, n))
    && (Truthy(search.genre) ==> GenreMatches(search.genre.value, n))
    && (Truthy(search.author) ==> AuthorMatches(search.author.value, n))
  }

  /** The three guarded filters of the fixture branch, applied in source order. */
  function ApplySearch(novels: seq<Novel>, search: SearchParams): seq<Novel>
  {
    var byTitle := if Truthy(search.query) then Filter(novels, n => TitleMatches(search.query.value, n)) else novels;
    var byGenre := if Truthy(search.genre) then Filter(byTitle, n => GenreMatches(search.genre.value, n)) else byTitle;
    if Truthy(search.author) then Filter(byGenre, n => AuthorMatches(search.author.value, n)) else byGenre
  }

  /** The whole search is one order-preserving filter by the reference predicate: the result
      holds exactly the qualifying novels, in fixture order, with their multiplicity. */
  lemma ApplySearchIsFilter(novels: seq<Novel>, search: SearchParams)
    ensures ApplySearch(novels, search) == Filter(novels, n => Matches(search, n))
  {
    var byTitle := if Truthy(search.query) then Filter(novels, n => TitleMatches(search.query.value, n)) else novels;
    var byGenre := if Truthy(search.genre) then Filter(byTitle, n => GenreMatches(search.genre.value, n)) else byTitle;
    TitleStep(novels, search);
    GenreStep(byTitle, search);
    AuthorStep(byGenre, search);
    var pt := (n: Novel) => TitleGuard(search, n);
    var pg := (n: Novel) => GenreGuard(search, n);
    var ptg := (n: Novel) => pt(n) && pg(n);
    FilterTwice(novels, pt, pg, ptg);
    FilterTwice(novels, ptg, (n: Novel) => AuthorGuard(search, n), n => Matches(search, n));
  }

  /** Each conjunct of `Matches`, as a filter condition. */
  predicate TitleGuard(search: SearchParams, n: Novel) { Truthy(search.query) ==> TitleMatches(search.query.value, n) }

  predicate GenreGuard(search: SearchParams, n: Novel) { Truthy(search.genre) ==> GenreMatches(search.genre.value, n) }

  predicate AuthorGuard(search: SearchParams, n: Novel) { Truthy(search.author) ==> AuthorMatches(search.author.value, n) }

  /** A guarded filter of `ApplySearch` is the filter by its guard. */
  lemma TitleStep(novels: seq<Novel>, search: SearchParams)
    ensures (if Truthy(search.query) then Filter(novels, n => TitleMatches(search.query.value, n)) else novels)
      == Filter(novels, (n: Novel) => TitleGuard(search, n))
  {
    if Truthy(search.query) {
      FilterSameCondition(novels, n => TitleMatches(search.query.value, n), (n: Novel) => TitleGuard(search, n));
    } else {
      FilterKeepsAll(novels, (n: Novel) => TitleGuard(search, n));
    }
  }

  lemma GenreStep(novels: seq<Novel>, search: SearchParams)
    ensures (if Truthy(search.genre) then Filter(novels, n => GenreMatches(search.genre.value, n)) else novels)
      == Filter(novels, (n: Novel) => GenreGuard(search, n))
  {
    if Truthy(search.genre) {
      FilterSameCondition(novels, n => GenreMatches(search.genre.value, n), (n: Novel) => GenreGuard(search, n));
    } else {
      FilterKeepsAll(novels, (n: Novel) => GenreGuard(search, n));
    }
  }

  lemma AuthorStep(novels: seq<Novel>, search: SearchParams)
    ensures (if Truthy(search.author) then Filter(novels, n => AuthorMatches(search.author.value, n)) else novels)
      == Filter(novels, (n: Novel) => AuthorGuard(search, n))
  {
    if Truthy(search.author) {
      FilterSameCondition(novels, n => AuthorMatches(search.author.value, n), (n: Novel) => AuthorGuard(search, n));
    } else {
      FilterKeepsAll(novels, (n: Novel) => AuthorGuard(search, n));
    }
  }

  // ---------------------------------------------------------------- pagination

  /** The offset of a page: `(page - 1) * limit`. */
  function PageStart(p: PaginationParams): nat
    requires p.page >= 1 && p.limit >= 0
  {
    (p.page - 1) * p.limit
  }

  /** The page window `slice(from, from + limit)`. */
  function Paginate<T>(s: seq<T>, p: PaginationParams): seq<T>
    requires p.page >= 1 && p.limit >= 0
  {
    Slice(s, PageStart(p), PageStart(p) + p.limit)
  }

  /** The window holds the elements from the page offset on, at most `limit` of them, and is
      empty exactly when the offset is at or past the end or the page size is zero. */
  lemma PaginateWindow<T>(s: seq<T>, p: PaginationParams)
    requires p.page >= 1 && p.limit >= 0
    ensures var r := Paginate(s, p); var from := PageStart(p);
      && |r| <= p.limit
      && (from <= |s| ==> r == s[from..Min(from + p.limit, |s|)])
      && (r == [] <==> from >= |s| || p.limit == 0)
      && IsSubsequence(r, s)
  {
    var from := PageStart(p);
    if from < |s| {
      SliceIsSubsequence(s, from, Min(from + p.limit, |s|));
    }
  }

  /** `getNovelsList` over a fixture array: search, then the page window if one is asked for. */
  function ListNovels(novels: seq<Novel>, search: SearchParams, pagination: Option<PaginationParams>): (r: Reply<seq<Novel>>)
    requires ValidPagination(pagination)
    ensures r.data.Some? && r.error == None
  {
    var filtered := ApplySearch(novels, search);
    var page := if pagination.Some? then Paginate(filtered, pagination.value) else filtered;
    Reply(Some(page), None)
  }

  /** The fixture branch of `getNovelsList` itself. */
  function GetNovelsList(search: SearchParams, pagination: Option<PaginationParams>): Reply<seq<Novel>>
    requires ValidPagination(pagination)
  {
    ListNovels(FixtureNovels, search, pagination)
  }

  /** What a list request returns: the page window of the reference filter, an order-preserving
      subsequence of the fixture array, and every novel in it satisfies the search. */
  lemma ListNovelsSpec(novels: seq<Novel>, search: SearchParams, pagination: Option<PaginationParams>)
    requires ValidPagination(pagination)
    ensures var data := ListNovels(novels, search, pagination).data.value;
      var filtered := Filter(novels, n => Matches(search, n));
      && data == (if pagination.Some? then Paginate(filtered, pagination.value) else filtered)
      && IsSubsequence(data, novels)
      && (forall n :: n in data ==> n in novels && Matches(search, n))
  {
    ApplySearchIsFilter(novels, search);
    var filtered := Filter(novels, n => Matches(search, n));
    FilterIsSubsequence(novels, n => Matches(search, n));
    var data := ListNovels(novels, search, pagination).data.value;
    if pagination.Some? {
      PaginateWindow(filtered, pagination.value);
      SubsequenceTransitive(data, filtered, novels);
    }
    forall n | n in data ensures n in novels && Matches(search, n) {
      if pagination.Some? {
        SubsequenceMembers(data, filtered, n);
      }
    }
  }

  /** Without paging, a novel is listed exactly when it is in the array and satisfies the search. */
  lemma ListNovelsMembership(novels: seq<Novel>, search: SearchParams, n: Novel)
    ensures n in ListNovels(novels, search, None).data.value <==> n in novels && Matches(search, n)
  {
    ApplySearchIsFilter(novels, search);
    if n in novels && Matches(search, n) {
      FilterComplete(novels, m => Matches(search, m), n);
    }
  }

  /** No search and no paging: the whole array, in order, without error. */
  lemma ListNovelsUnfiltered(novels: seq<Novel>)
    ensures ListNovels(novels, NoSearch, None) == Reply(Some(novels), None)
    ensures ListNovels(novels, SearchParams(Some(""), Some(""), Some("")), None) == Reply(Some(novels), None)
  {
  }

  /** The scenario of a first page of twenty on the three-novel fixture: all three, in fixture order. */
  lemma FirstPageOfFixture()
    ensures GetNovelsList(NoSearch, Some(PaginationParams(1, 20))) == Reply(Some(FixtureNovels), None)
  {
    assert |FixtureNovels| == 3;
    assert FixtureNovels[0..3] == FixtureNovels;
  }

  // ---------------------------------------------------------------- the live branch's range

  /** The inclusive bounds `(from, from + limit - 1)` the live branch passes to `range`. */
  function LiveRange(p: PaginationParams): (bounds: (nat, int))
    requires p.page >= 1 && p.limit >= 0
  {
    ((p.page - 1) * p.limit, (p.page - 1) * p.limit + p.limit - 1)
  }

  /** The rows an inclusive `range(from, to)` selects from an ordered result: the existing
      indices `from <= i <= to`. */
  function RangeRows<T>(rows: seq<T>, from: nat, to: int): (r: seq<T>)
    ensures |r| == if to < from || from >= |rows| then 0 else Min(to + 1, |rows|) - from
    ensures forall k :: 0 <= k < |r| ==> r[k] == rows[from + k]
    decreases |rows| - from
  {
    if to < from || from >= |rows| then [] else [rows[from]] + RangeRows(rows, from + 1, to)
  }

  /** The inclusive range of `count` rows from `from` is the half-open slice of the same rows. */
  lemma RangeRowsIsSlice<T>(rows: seq<T>, from: nat, count: nat)
    ensures RangeRows(rows, from, from + count - 1) == Slice(rows, from, from + count)
  {
    var a, b := RangeRows(rows, from, from + count - 1), Slice(rows, from, from + count);
    assert |a| == |b|;
    assert forall k :: 0 <= k < |a| ==> a[k] == b[k];
  }

  /** The live branch's inclusive range and the fixture branch's half-open slice select the
      same rows of any ordered result. */
  lemma LiveRangeMatchesSlice<T>(rows: seq<T>, p: PaginationParams)
    requires p.page >= 1 && p.limit >= 0
    ensures RangeRows(rows, LiveRange(p).0, LiveRange(p).1) == Paginate(rows, p)
  {
    RangeRowsIsSlice(rows, PageStart(p), p.limit);
  }

  // ---------------------------------------------------------------- novel detail

  function Summarize(e: FixtureEpisode): EpisodeSummary {
    EpisodeSummary(e.id, e.title, e.episodeNumber, e.publishedAt)
  }

  /** `getNovelDetail` over fixture arrays: the first novel whose decimal id string equals `id`,
      its summary as description, and the projections of the episodes whose `novel_id` string
      equals `id`. */
  function NovelDetailOf(novels: seq<Novel>, episodes: seq<FixtureEpisode>, id: string): Reply<NovelDetail>
  {
    match Find(novels, (n: Novel) => ShowInt(n.id) == id)
    case None => Reply(None, Some("Novel not found"))
    case Some(novel) =>
      var own := Filter(episodes, (e: FixtureEpisode) => ShowInt(e.novelId) == id);
      Reply(Some(Spread(novel, novel.summary, Map(own, Summarize))), None)
  }

  /** The fixture branch of `getNovelDetail` itself. */
  function GetNovelDetail(id: string): Reply<NovelDetail>
  {
    NovelDetailOf(FixtureNovels, FixtureEpisodes, id)
  }

  /** Not found exactly when no novel's id renders as `id`; otherwise the fields of the first such
      novel, with its summary as description and, in place of its episode count, exactly the
      episodes filed under `id` in array order. */
  lemma NovelDetailSpec(novels: seq<Novel>, episodes: seq<FixtureEpisode>, id: string)
    ensures var r := NovelDetailOf(novels, episodes, id);
      r.data.None? <==> forall n :: n in novels ==> ShowInt(n.id) != id
    ensures var r := NovelDetailOf(novels, episodes, id);
      r.data.None? ==> r.error == Some("Novel not found")
    ensures var r := NovelDetailOf(novels, episodes, id);
      r.data.Some? ==>
        && r.error == None
        && ShowInt(r.data.value.id) == id
        && (exists i :: 0 <= i < |novels| && CopiesNovel(r.data.value, novels[i]) &&
              forall j :: 0 <= j < i ==> ShowInt(novels[j].id) != id)
        && r.data.value.description == r.data.value.summary
        && r.data.value.episodes == Map(Filter(episodes, (e: FixtureEpisode) => ShowInt(e.novelId) == id), Summarize)
  {
    var p := (n: Novel) => ShowInt(n.id) == id;
    FindSpec(novels, p);
    match Find(novels, p) {
      case None =>
      case Some(n) =>
        SpreadSpec(n, n.summary, Map(Filter(episodes, (e: FixtureEpisode) => ShowInt(e.novelId) == id), Summarize));
    }
  }

  /** The spread copies the novel's fields and writes the two given ones over it. */
  lemma SpreadSpec(n: Novel, description: string, episodes: seq<EpisodeSummary>)
    ensures var d := Spread(n, description, episodes);
      CopiesNovel(d, n) && d.description == description && d.episodes == episodes
  {
  }

  /** An episode belongs to the listed episodes of a found novel exactly when it is filed under `id`. */
  lemma NovelDetailEpisodeMembership(novels: seq<Novel>, episodes: seq<FixtureEpisode>, id: string, e: FixtureEpisode)
    requires NovelDetailOf(novels, episodes, id).data.Some?
    requires e in episodes && ShowInt(e.novelId) == id
    ensures Summarize(e) in NovelDetailOf(novels, episodes, id).data.value.episodes
  {
    var own := Filter(episodes, (x: FixtureEpisode) => ShowInt(x.novelId) == id);
    FilterComplete(episodes, (x: FixtureEpisode) => ShowInt(x.novelId) == id, e);
    var k :| 0 <= k < |own| && own[k] == e;
    assert Map(own, Summarize)[k] == Summarize(e);
  }

  /** The scenario of an absent id. */
  lemma UnknownNovel()
    ensures GetNovelDetail("999") == Reply(None, Some("Novel not found"))
  {
    FixtureIdsAreDigits();
    NoIdMatches(FixtureNovels, FixtureEpisodes, "999");
  }

  /** The lookup is textual: "01" names no novel even though it reads as the number 1. */
  lemma PaddedIdIsNotFound()
    ensures GetNovelDetail("01").data.None?
  {
    FixtureIdsAreDigits();
    NoIdMatches(FixtureNovels, FixtureEpisodes, "01");
  }

  /** Every fixture novel's id renders as one character. */
  lemma FixtureIdsAreDigits()
    ensures forall n :: n in FixtureNovels ==> |ShowInt(n.id)| == 1
  {
    var ids := [FixtureNovels[0].id, FixtureNovels[1].id, FixtureNovels[2].id];
    assert ids == [1, 2, 3];
    forall n | n in FixtureNovels
      ensures |ShowInt(n.id)| == 1
    {
      assert n.id in ids;
    }
  }

  /** A text that is no novel's id text is not found. */
  lemma NoIdMatches(novels: seq<Novel>, episodes: seq<FixtureEpisode>, id: string)
    requires |id| != 1 && forall n :: n in novels ==> |ShowInt(n.id)| == 1
    ensures NovelDetailOf(novels, episodes, id) == Reply(None, Some("Novel not found"))
  {
    var p := (n: Novel) => ShowInt(n.id) == id;
    FindSpec(novels, p);
  }
}
