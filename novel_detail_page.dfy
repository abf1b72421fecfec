/** The novel detail page of the static prototype (frontend/assets/js/novel-detail.js): an
    Alpine.js component holding the shown novel with its table of contents. `window.location.href`
    is the field `href`.
    Each method's `modifies` clause names the fields it assigns; the others keep their values. */
module NovelDetailPage {
  import opened Wrappers
  import opened Text
  import opened Seqs
  import opened LegacyData

  /** One line of the table of contents. */
  datatype EpisodeSummary = EpisodeSummary(id: int, title: string, postDate: string)

  /** The shown novel: the copied fields of the document entry and its table of contents. */
  datatype NovelDetail = NovelDetail(
    id: int,
    title: string,
    author: Option<string>,
    summary: string,
    episodes: seq<EpisodeSummary>)

  const UnknownAuthor := "不明"

  function Summary(e: LegacyEpisode): EpisodeSummary { EpisodeSummary(e.id, e.title, e.postDate) }

  /** What `loadNovelDetail` builds on success, or `None` when the document is missing or holds
      no novel with the id. A missing episode list leaves the contents empty. */
  function Detail(data: Option<NovelsJson>, novelId: int): Option<NovelDetail>
  {
    if data.None? then None
    else match Find(data.value.novels, (n: LegacyNovel) => n.id == novelId)
      case None => None
      case Some(n) =>
        var key := ShowInt(novelId);
        var episodes := if key in data.value.episodes then Map(data.value.episodes[key], Summary) else [];
        Some(NovelDetail(n.id, n.title, n.author, n.summary, episodes))
  }

  /** The placeholder shown when loading fails. */
  function FallbackDetail(novelId: int): NovelDetail
  {
    NovelDetail(novelId, LoadErrorTitle, Some(UnknownAuthor), LoadErrorText, [])
  }

  /** Loading succeeds exactly when the document holds a novel with the id; the shown novel then
      copies the first such entry, and its contents list every episode of the novel's list in
      order, or nothing when the document has no list for it. */
  lemma DetailSpec(data: Option<NovelsJson>, novelId: int)
    ensures Detail(data, novelId).Some? <==>
      data.Some? && exists n :: n in data.value.novels && n.id == novelId
    ensures Detail(data, novelId).Some? ==>
      var d := Detail(data, novelId).value;
      && d.id == novelId
      && (exists i :: 0 <= i < |data.value.novels|
            && var n := data.value.novels[i];
            && n.id == novelId && d.title == n.title && d.author == n.author && d.summary == n.summary
            && forall j :: 0 <= j < i ==> data.value.novels[j].id != novelId)
      && (ShowInt(novelId) !in data.value.episodes ==> d.episodes == [])
      && (ShowInt(novelId) in data.value.episodes ==>
            var list := data.value.episodes[ShowInt(novelId)];
            && |d.episodes| == |list|
            && forall k :: 0 <= k < |list| ==>
                 d.episodes[k] == EpisodeSummary(list[k].id, list[k].title, list[k].postDate))
  {
    if data.Some? {
      FindSpec(data.value.novels, (n: LegacyNovel) => n.id == novelId);
    }
  }

  class NovelDetailApp {
    var novel: Option<NovelDetail>
    var novelId: int
    var href: string

    /** The id is never 0: it starts at 1 and is read through `|| 1`. */
    predicate Valid()
      reads this
    {
      novelId != 0
    }

    constructor (href: string)
      ensures Valid()
      ensures novel == None && novelId == 1 && this.href == href
    {
      novel, novelId := None, 1;
      this.href := href;
    }

    /** `getNovelIdFromUrl`. */
    method GetNovelIdFromUrl()
      modifies this`novelId
      ensures Valid()
      ensures novelId == UrlParam(href, "id")
    {
      novelId := UrlParam(href, "id");
    }

    /** `loadNovelDetail`, given the parsed document or `None` when fetching it failed. */
    method LoadNovelDetail(data: Option<NovelsJson>)
      requires Valid()
      modifies this`novel
      ensures Valid()
      ensures Detail(data, novelId).Some? ==> novel == Detail(data, novelId)
      ensures Detail(data, novelId).None? ==> novel == Some(FallbackDetail(novelId))
      ensures novel.Some? && novel.value.id == novelId
    {
      DetailSpec(data, novelId);
      var found := Detail(data, novelId);
      if found.Some? {
        novel := found;
      } else {
        novel := Some(FallbackDetail(novelId));
      }
    }

    /** `init`: read the address, then load. */
    method Init(data: Option<NovelsJson>)
      modifies this`novel, this`novelId
      ensures Valid()
      ensures novelId == UrlParam(href, "id")
      ensures Detail(data, novelId).Some? ==> novel == Detail(data, novelId)
      ensures Detail(data, novelId).None? ==> novel == Some(FallbackDetail(novelId))
      ensures novel.Some? && novel.value.id == novelId
    {
      GetNovelIdFromUrl();
      LoadNovelDetail(data);
    }

    /** The id written into an episode address: the shown novel's, or the text "undefined" while
        `novel` is still `{}`. */
    function ShownId(): string
      reads this
    {
      if novel.Some? then ShowInt(novel.value.id) else "undefined"
    }

    /** `openEpisode`. */
    method OpenEpisode(episodeId: int)
      modifies this`href
      ensures href == EpisodeUrl(ShownId(), ShowInt(episodeId))
    {
      href := EpisodeUrl(ShownId(), ShowInt(episodeId));
    }
  }

  /** Once the detail page has loaded, opening an episode leads to a reader page that reads back
      this novel and that episode (0, which the reader turns into 1, aside). */
  lemma OpenedEpisodeReadsBack(novel: NovelDetail, episodeId: int)
    requires novel.id != 0
    ensures UrlParam(EpisodeUrl(ShowInt(novel.id), ShowInt(episodeId)), "novelId") == novel.id
    ensures UrlParam(EpisodeUrl(ShowInt(novel.id), ShowInt(episodeId)), "episodeId") ==
      if episodeId == 0 then 1 else episodeId
  {
    EpisodeAddressRoundTrip(novel.id, episodeId);
  }

  /** Before loading, the address carries "undefined" as the novel id, which the reader turns
      into novel 1. */
  lemma UnloadedOpensNovelOne(episodeId: int)
    ensures UrlParam(EpisodeUrl("undefined", ShowInt(episodeId)), "novelId") == 1
  {
    EpisodeAddressOf("undefined", ShowInt(episodeId));
    ParseIntOfWord("undefined");
  }
}
