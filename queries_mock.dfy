/** The test doubles of the query layer (frontend/src/lib/supabase/queries.mock.ts), over the
    fixtures of frontend/src/lib/test-utils.tsx. */
module QueriesMock {
  import opened Wrappers
  import opened Seqs
  import opened Text
  import opened NovelTypes
  import Queries

  const MockNovels: seq<Novel> := [
    Novel(1, "小説タイトルA",
      "これは小説Aの概要です。異世界に転生した主人公が、チート能力を駆使して活躍する物語です。",
      "夏目 漱石", "2025-07-12T00:00:00Z", 15, Some("異世界"), Some(["転生", "チート"]), "2025-06-01T00:00:00Z"),
    Novel(2, "小説タイトルB",
      "これは小説Bの概要です。現代を舞台にした、心温まる恋愛ストーリー。",
      "芥川 龍之介", "2025-07-11T00:00:00Z", 30, Some("恋愛"), Some(["現代", "学園"]), "2025-05-15T00:00:00Z")
  ]

  const MockEpisodes: seq<Episode> := [
    Episode(1, 1, "第一章: 新たな始まり", "2025-06-01T00:00:00Z",
      [Paragraph(1, "　ここは章の本文が入ります。読みやすさを重視し、行間や文字サイズを調整します。"),
       Paragraph(2, "　吾輩は猫である。名前はまだ無い。")],
      1, "2025-06-01T00:00:00Z"),
    Episode(2, 1, "第二章: 初めての仲間", "2025-06-08T00:00:00Z",
      [Paragraph(3, "　第二章の内容です。")],
      2, "2025-06-08T00:00:00Z")
  ]

  // ---------------------------------------------------------------- list

  /** The mock's own filter chain: title, then genre, then author (`novel.author?.toLowerCase()`,
      which for the always-present author of types.ts is plain access). */
  function MockSearch(novels: seq<Novel>, search: SearchParams): seq<Novel>
  {
    var byTitle := if Truthy(search.query)
      then Filter(novels, (n: Novel) => IncludesIgnoringCase(n.title, search.query.value)) else novels;
    var byGenre := if Truthy(search.genre)
      then Filter(byTitle, (n: Novel) => n.genre == search.genre) else byTitle;
    if Truthy(search.author)
      then Filter(byGenre, (n: Novel) => IncludesIgnoringCase(n.author, search.author.value)) else byGenre
  }

  /** `mockGetNovelsList` over a novel array: the search, then the window `slice(start, start + limit)`. */
  function MockListNovels(novels: seq<Novel>, search: SearchParams, pagination: Option<PaginationParams>): (r: Reply<seq<Novel>>)
    requires ValidPagination(pagination)
    ensures r.data.Some? && r.error == None
  {
    var filtered := MockSearch(novels, search);
    if pagination.Some? then
      var start := (pagination.value.page - 1) * pagination.value.limit;
      Reply(Some(Slice(filtered, start, start + pagination.value.limit)), None)
    else Reply(Some(filtered), None)
  }

  function MockGetNovelsList(search: SearchParams, pagination: Option<PaginationParams>): Reply<seq<Novel>>
    requires ValidPagination(pagination)
  {
    MockListNovels(MockNovels, search, pagination)
  }

  /** The mock's filters and the fixture branch's filters select the same novels in the same order. */
  lemma MockSearchAgreesWithQueries(novels: seq<Novel>, search: SearchParams)
    ensures MockSearch(novels, search) == Queries.ApplySearch(novels, search)
  {
    if Truthy(search.query) {
      FilterSameCondition(novels, (n: Novel) => IncludesIgnoringCase(n.title, search.query.value),
        (n: Novel) => Queries.TitleMatches(search.query.value, n));
    }
    var t := Queries.ApplySearch(novels, SearchParams(search.query, None, None));
    if Truthy(search.genre) {
      FilterSameCondition(t, (n: Novel) => n.genre == search.genre,
        (n: Novel) => Queries.GenreMatches(search.genre.value, n));
    }
    var g := Queries.ApplySearch(novels, SearchParams(search.query, search.genre, None));
    if Truthy(search.author) {
      FilterSameCondition(g, (n: Novel) => IncludesIgnoringCase(n.author, search.author.value),
        (n: Novel) => Queries.AuthorMatches(search.author.value, n));
    }
  }

  /** The two copies of the list logic agree on every array, search and page. */
  lemma MockListAgreesWithQueries(novels: seq<Novel>, search: SearchParams, pagination: Option<PaginationParams>)
    requires ValidPagination(pagination)
    ensures MockListNovels(novels, search, pagination) == Queries.ListNovels(novels, search, pagination)
  {
    MockSearchAgreesWithQueries(novels, search);
  }

  // ---------------------------------------------------------------- lookups

  /** `mockGetNovelById` over a novel array: the first novel whose id equals `parseInt(id)`. */
  function NovelById(novels: seq<Novel>, id: string): Reply<Novel>
  {
    match Find(novels, (n: Novel) => Some(n.id) == ParseInt(id))
    case Some(n) => Reply(Some(n), None)
    case None => Reply(None, Some("Novel not found"))
  }

  function MockGetNovelById(id: string): Reply<Novel> { NovelById(MockNovels, id) }

  /** Found exactly when some novel's id is what `parseInt(id)` reads, and then it is the first such novel. */
  lemma NovelByIdSpec(novels: seq<Novel>, id: string)
    ensures var r := NovelById(novels, id);
      (r.data.None? <==> forall n :: n in novels ==> Some(n.id) != ParseInt(id)) &&
      (r.data.None? ==> r.error == Some("Novel not found")) &&
      (r.data.Some? ==>
         && r.error == None && Some(r.data.value.id) == ParseInt(id)
         && exists i :: 0 <= i < |novels| && novels[i] == r.data.value &&
              forall j :: 0 <= j < i ==> Some(novels[j].id) != ParseInt(id))
  {
    FindSpec(novels, (n: Novel) => Some(n.id) == ParseInt(id));
  }

  /** The fixture branch of queries.ts looks novels up by their decimal text, the mock by
      `parseInt`: any id the first finds, the second finds too, and it is the same novel. */
  lemma TextualLookupImpliesParsedLookup(novels: seq<Novel>, episodes: seq<Queries.FixtureEpisode>, id: string)
    requires Queries.NovelDetailOf(novels, episodes, id).data.Some?
    ensures NovelById(novels, id).data.Some?
    ensures Queries.CopiesNovel(Queries.NovelDetailOf(novels, episodes, id).data.value, NovelById(novels, id).data.value)
  {
    Queries.NovelDetailSpec(novels, episodes, id);
    var found := Queries.NovelDetailOf(novels, episodes, id).data.value;
    ParseIntShowInt(found.id);
    NovelByIdSpec(novels, id);
  }

  /** ... but not conversely: the mock reads "01" as novel 1, the fixture branch does not. */
  lemma ParsedLookupIsLooser()
    ensures MockGetNovelById("01").data == Some(MockNovels[0])
  {
    ParseIntOfPaddedOne();
  }

  lemma ParseIntOfPaddedOne()
    ensures ParseInt("01") == Some(1)
  {
    var s := "01";
    assert !IsJsSpace(s[0]);
    assert TrimStart(s, IsJsSpace) == s;
    assert DigitPrefix(s[1..], 10) == "1";
    assert DigitPrefix(s, 10) == s;
    assert s[..1] == "0";
    assert DigitsValue(s, 10) == 1;
  }

  /** `mockGetEpisodesByNovelId` over an episode array: all episodes whose `novel_id` equals
      `parseInt(novelId)`, in array order, never an error. */
  function EpisodesByNovelId(episodes: seq<Episode>, novelId: string): Reply<seq<Episode>>
  {
    Reply(Some(Filter(episodes, (e: Episode) => Some(e.novelId) == ParseInt(novelId))), None)
  }

  function MockGetEpisodesByNovelId(novelId: string): Reply<seq<Episode>>
  {
    EpisodesByNovelId(MockEpisodes, novelId)
  }

  /** Exactly the episodes of that novel, in order, possibly none, and no error. */
  lemma EpisodesByNovelIdSpec(episodes: seq<Episode>, novelId: string, e: Episode)
    ensures var r := EpisodesByNovelId(episodes, novelId);
      && r.error == None && r.data.Some?
      && IsSubsequence(r.data.value, episodes)
      && (e in r.data.value <==> e in episodes && Some(e.novelId) == ParseInt(novelId))
  {
    var p := (x: Episode) => Some(x.novelId) == ParseInt(novelId);
    FilterIsSubsequence(episodes, p);
    if e in episodes && p(e) {
      FilterComplete(episodes, p, e);
    }
  }

  /** The two JavaScript value kinds compared in `mockGetEpisodeById`. */
  datatype JsValue = Num(n: int) | Str(s: string)

  /** `===`: a number is never strictly equal to a string. */
  predicate StrictEquals(a: JsValue, b: JsValue) { a == b }

  /** `mockGetEpisodeById` as written: `e.id === id` compares the numeric episode id of types.ts
      with the string parameter. */
  function EpisodeByIdAsWritten(episodes: seq<Episode>, id: string): Reply<Episode>
  {
    match Find(episodes, (e: Episode) => StrictEquals(Num(e.id), Str(id)))
    case Some(e) => Reply(Some(e), None)
    case None => Reply(None, Some("Episode not found"))
  }

  /** As written, no episode is ever found: for every array and every id the reply is the error. */
  lemma EpisodeByIdAsWrittenNeverFinds(episodes: seq<Episode>, id: string)
    ensures EpisodeByIdAsWritten(episodes, id) == Reply(None, Some("Episode not found"))
  {
    FindSpec(episodes, (e: Episode) => StrictEquals(Num(e.id), Str(id)));
  }

  /** The evident intent, matching the two sibling lookups: compare with `parseInt(id)`. */
  function EpisodeById(episodes: seq<Episode>, id: string): Reply<Episode>
  {
    match Find(episodes, (e: Episode) => Some(e.id) == ParseInt(id))
    case Some(e) => Reply(Some(e), None)
    case None => Reply(None, Some("Episode not found"))
  }

  /** `mockGetEpisodeById` as written, over the mock episodes; `EpisodeById` is the corrected
      look-up. */
  function MockGetEpisodeById(id: string): Reply<Episode> { EpisodeByIdAsWritten(MockEpisodes, id) }

  /** Corrected lookup: asking by an episode's own id text finds the first episode with that id;
      it reports the error exactly when no episode has the id `parseInt` reads. */
  lemma EpisodeByIdSpec(episodes: seq<Episode>, id: string)
    ensures var r := EpisodeById(episodes, id);
      (r.data.None? <==> forall e :: e in episodes ==> Some(e.id) != ParseInt(id)) &&
      (r.data.None? ==> r.error == Some("Episode not found")) &&
      (r.data.Some? ==>
         && r.error == None && Some(r.data.value.id) == ParseInt(id)
         && exists i :: 0 <= i < |episodes| && episodes[i] == r.data.value &&
              forall j :: 0 <= j < i ==> Some(episodes[j].id) != ParseInt(id))
  {
    FindSpec(episodes, (e: Episode) => Some(e.id) == ParseInt(id));
  }

  /** An episode is always found by its own id text. */
  lemma EpisodeFoundByOwnId(episodes: seq<Episode>, e: Episode)
    requires e in episodes
    ensures EpisodeById(episodes, ShowInt(e.id)).data.Some?
    ensures EpisodeById(episodes, ShowInt(e.id)).data.value.id == e.id
  {
    ParseIntShowInt(e.id);
    EpisodeByIdSpec(episodes, ShowInt(e.id));
  }
}
