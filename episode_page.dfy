/** The episode reader of the static prototype (frontend/assets/js/episode.js): an Alpine.js
    component whose fields the page updates in place. `window.location.href` is the field
    `href`; assigning it is how the page navigates.
    Each method's `modifies` clause names the fields it assigns; the others keep their values. */
module EpisodePage {
  import opened Wrappers
  import opened Text
  import opened Seqs
  import opened NovelTypes
  import opened LegacyData

  /** What the page keeps of the novel: its id and title. */
  datatype NovelHeader = NovelHeader(id: int, title: string)

  /** What the page keeps of the episode: id, title and paragraphs. */
  datatype EpisodeView = EpisodeView(id: int, title: string, content: seq<Paragraph>)

  /** The provisional number of episodes behind `hasNextEpisode`. */
  const LastEpisode := 10

  /** The novel and episode `loadEpisode` finds in the document, or `None` when one of its three
      look-ups fails (or the document could not be fetched), which sends it to the fallback. */
  function Lookup(data: Option<NovelsJson>, novelId: int, episodeId: int): Option<(NovelHeader, EpisodeView)>
  {
    if data.None? then None
    else match Find(data.value.novels, (n: LegacyNovel) => n.id == novelId)
      case None => None
      case Some(n) =>
        var key := ShowInt(novelId);
        if key !in data.value.episodes then None
        else match Find(data.value.episodes[key], (e: LegacyEpisode) => e.id == episodeId)
          case None => None
          case Some(e) => Some((NovelHeader(n.id, n.title), EpisodeView(e.id, e.title, e.content)))
  }

  /** The error placeholders shown when loading fails. */
  function FallbackNovel(novelId: int): NovelHeader { NovelHeader(novelId, LoadErrorTitle) }

  function FallbackEpisode(episodeId: int): EpisodeView
  {
    EpisodeView(episodeId, LoadErrorTitle, [Paragraph(1, LoadErrorText)])
  }

  /** The look-up succeeds exactly when the novel, its episode list and the episode are all
      present; it then yields the first novel and the first episode carrying the requested
      ids, so what is shown always has those ids. */
  lemma LookupSpec(data: Option<NovelsJson>, novelId: int, episodeId: int)
    ensures Lookup(data, novelId, episodeId).Some? <==>
      (&& data.Some?
       && (exists n :: n in data.value.novels && n.id == novelId)
       && ShowInt(novelId) in data.value.episodes
       && (exists e :: e in data.value.episodes[ShowInt(novelId)] && e.id == episodeId))
    ensures Lookup(data, novelId, episodeId).Some? ==>
      var (novel, episode) := Lookup(data, novelId, episodeId).value;
      && novel.id == novelId && episode.id == episodeId
      && (exists i :: 0 <= i < |data.value.novels| && data.value.novels[i].id == novelId
            && data.value.novels[i].title == novel.title
            && forall j :: 0 <= j < i ==> data.value.novels[j].id != novelId)
      && (exists i :: 0 <= i < |data.value.episodes[ShowInt(novelId)]|
            && var e := data.value.episodes[ShowInt(novelId)][i];
            && e.id == episodeId && e.title == episode.title && e.content == episode.content
            && forall j :: 0 <= j < i ==> data.value.episodes[ShowInt(novelId)][j].id != episodeId)
  {
    if data.Some? {
      var isNovel := (n: LegacyNovel) => n.id == novelId;
      FindSpec(data.value.novels, isNovel);
      var key := ShowInt(novelId);
      if key in data.value.episodes {
        var isEpisode := (e: LegacyEpisode) => e.id == episodeId;
        FindSpec(data.value.episodes[key], isEpisode);
      }
    }
  }

  /** The reader's state. `novel` and `episode` are `None` while they are still the empty
      objects `{}`. */
  class EpisodeApp {
    var novel: Option<NovelHeader>
    var episode: Option<EpisodeView>
    var novelId: int
    var episodeId: int
    var href: string

    /** Both ids are never 0: they start at 1 and every reading goes through `|| 1`. */
    predicate Valid()
      reads this
    {
      novelId != 0 && episodeId != 0
    }

    constructor (href: string)
      ensures Valid()
      ensures novel == None && episode == None && novelId == 1 && episodeId == 1
      ensures this.href == href
    {
      novel, episode := None, None;
      novelId, episodeId := 1, 1;
      this.href := href;
    }

    predicate HasPrevEpisode()
      reads this
    {
      episodeId > 1
    }

    predicate HasNextEpisode()
      reads this
    {
      episodeId < LastEpisode
    }

    /** `getParamsFromUrl`: both ids from the page's own address. */
    method GetParamsFromUrl()
      modifies this`novelId, this`episodeId
      ensures Valid()
      ensures novelId == UrlParam(href, "novelId") && episodeId == UrlParam(href, "episodeId")
    {
      novelId := UrlParam(href, "novelId");
      episodeId := UrlParam(href, "episodeId");
    }

    /** `loadEpisode`, given the parsed document or `None` when fetching it failed: on success
        the found novel and episode, otherwise the placeholders; either way they carry the
        page's two ids. */
    method LoadEpisode(data: Option<NovelsJson>)
      requires Valid()
      modifies this`novel, this`episode
      ensures Valid()
      ensures Lookup(data, novelId, episodeId).Some? ==>
        novel == Some(Lookup(data, novelId, episodeId).value.0) &&
        episode == Some(Lookup(data, novelId, episodeId).value.1)
      ensures Lookup(data, novelId, episodeId).None? ==>
        novel == Some(FallbackNovel(novelId)) && episode == Some(FallbackEpisode(episodeId))
      ensures novel.Some? && novel.value.id == novelId
      ensures episode.Some? && episode.value.id == episodeId
    {
      LookupSpec(data, novelId, episodeId);
      match Lookup(data, novelId, episodeId)
      case Some((n, e)) =>
        novel, episode := Some(n), Some(e);
      case None =>
        novel, episode := Some(FallbackNovel(novelId)), Some(FallbackEpisode(episodeId));
    }

    /** `init`: read the address, then load. */
    method Init(data: Option<NovelsJson>)
      modifies this`novel, this`episode, this`novelId, this`episodeId
      ensures Valid()
      ensures novelId == UrlParam(href, "novelId") && episodeId == UrlParam(href, "episodeId")
      ensures Lookup(data, novelId, episodeId).Some? ==>
        novel == Some(Lookup(data, novelId, episodeId).value.0) &&
        episode == Some(Lookup(data, novelId, episodeId).value.1)
      ensures Lookup(data, novelId, episodeId).None? ==>
        novel == Some(FallbackNovel(novelId)) && episode == Some(FallbackEpisode(episodeId))
      ensures novel.Some? && novel.value.id == novelId
      ensures episode.Some? && episode.value.id == episodeId
    {
      GetParamsFromUrl();
      LoadEpisode(data);
    }

    /** `goToPrevEpisode`: only past the first episode, to the previous one of the same novel. */
    method GoToPrevEpisode()
      modifies this`href
      ensures HasPrevEpisode() ==> href == EpisodeUrl(ShowInt(novelId), ShowInt(episodeId - 1))
      ensures !HasPrevEpisode() ==> href == old(href)
    {
      if HasPrevEpisode() {
        href := EpisodeUrl(ShowInt(novelId), ShowInt(episodeId - 1));
      }
    }

    /** `goToNextEpisode`: only before the provisional last episode. */
    method GoToNextEpisode()
      modifies this`href
      ensures HasNextEpisode() ==> href == EpisodeUrl(ShowInt(novelId), ShowInt(episodeId + 1))
      ensures !HasNextEpisode() ==> href == old(href)
    {
      if HasNextEpisode() {
        href := EpisodeUrl(ShowInt(novelId), ShowInt(episodeId + 1));
      }
    }

    /** `backToDetails`: the detail page of the same novel. */
    method BackToDetails()
      modifies this`href
      ensures href == DetailUrl(ShowInt(novelId))
    {
      href := DetailUrl(ShowInt(novelId));
    }
  }

  /** The page opened by "previous" reads the same novel and the episode before. */
  lemma PrevOpensPreviousEpisode(novelId: int, episodeId: int)
    requires novelId != 0 && episodeId > 1
    ensures UrlParam(EpisodeUrl(ShowInt(novelId), ShowInt(episodeId - 1)), "novelId") == novelId
    ensures UrlParam(EpisodeUrl(ShowInt(novelId), ShowInt(episodeId - 1)), "episodeId") == episodeId - 1
  {
    EpisodeAddressRoundTrip(novelId, episodeId - 1);
  }

  /** The page opened by "next" reads the same novel and the episode after, except from
      episode -1, whose successor 0 is read as 1. */
  lemma NextOpensNextEpisode(novelId: int, episodeId: int)
    requires novelId != 0 && episodeId < LastEpisode
    ensures UrlParam(EpisodeUrl(ShowInt(novelId), ShowInt(episodeId + 1)), "novelId") == novelId
    ensures UrlParam(EpisodeUrl(ShowInt(novelId), ShowInt(episodeId + 1)), "episodeId") ==
      if episodeId == -1 then 1 else episodeId + 1
  {
    EpisodeAddressRoundTrip(novelId, episodeId + 1);
  }

  /** Going back to the table of contents opens the detail page of the novel being read. */
  lemma BackOpensSameNovel(novelId: int)
    requires novelId != 0
    ensures UrlParam(DetailUrl(ShowInt(novelId)), "id") == novelId
  {
    DetailAddressRoundTrip(novelId);
  }
}
