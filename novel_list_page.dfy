/** The novel list page of the static prototype (frontend/assets/js/app.js): an Alpine.js
    component holding the loaded novels and the search text bound to the search field.
    `window.location.href` is the field `href`.
    Each method's `modifies` clause names the fields it assigns; the others keep their values. */
module NovelListPage {
  import opened Wrappers
  import opened Text
  import opened Seqs
  import opened LegacyData

  /** The sample entry shown when loading fails; it has no author. */
  const FallbackNovels: seq<LegacyNovel> :=
    [LegacyNovel(1, "小説タイトルA", None, "これは小説Aの概要です。", "2025/07/12", 8)]

  /** The title test of `filteredNovels`. */
  predicate TitleMatches(query: string, n: LegacyNovel) { IncludesIgnoringCase(n.title, query) }

  /** The novels a search text lets through: all of them for an empty text, otherwise those whose
      title contains it, ignoring case. */
  function Filtered(novels: seq<LegacyNovel>, query: string): seq<LegacyNovel>
  {
    if query == [] then novels else Filter(novels, (n: LegacyNovel) => TitleMatches(query, n))
  }

  /** A novel is listed exactly when it is loaded and its title matches; the list keeps the
      loaded order. */
  lemma FilteredSpec(novels: seq<LegacyNovel>, query: string, n: LegacyNovel)
    ensures n in Filtered(novels, query) <==> n in novels && TitleMatches(query, n)
    ensures IsSubsequence(Filtered(novels, query), novels)
  {
    var p := (m: LegacyNovel) => TitleMatches(query, m);
    if query == [] {
      EmptyTextMatches(n.title);
      SubsequenceOfSelf(novels);
    } else {
      if n in novels && p(n) {
        FilterComplete(novels, p, n);
      }
      FilterIsSubsequence(novels, p);
    }
  }

  /** Every title contains the empty text, so the empty-text shortcut lists what the filter
      itself would. */
  lemma EmptyQueryShortcut(novels: seq<LegacyNovel>)
    ensures Filtered(novels, "") == Filter(novels, (n: LegacyNovel) => TitleMatches("", n))
  {
    forall n: LegacyNovel | n in novels
      ensures TitleMatches("", n)
    {
      EmptyTextMatches(n.title);
    }
    FilterKeepsAll(novels, (n: LegacyNovel) => TitleMatches("", n));
  }

  lemma EmptyTextMatches(title: string)
    ensures IncludesIgnoringCase(title, "")
  {
    assert Lower("") == [];
    assert [] <= Lower(title);
  }

  /** The case of the search text does not matter. */
  lemma QueryCaseIgnored(novels: seq<LegacyNovel>, query: string)
    ensures Filtered(novels, Lower(query)) == Filtered(novels, query)
  {
    LowerIdempotent(query);
    if query != [] {
      FilterSameCondition(novels, (n: LegacyNovel) => TitleMatches(Lower(query), n),
        (n: LegacyNovel) => TitleMatches(query, n));
    }
  }

  class NovelApp {
    var novels: seq<LegacyNovel>
    var searchQuery: string
    var href: string

    constructor (href: string)
      ensures novels == [] && searchQuery == "" && this.href == href
    {
      novels, searchQuery := [], "";
      this.href := href;
    }

    /** `filteredNovels`. */
    function FilteredNovels(): seq<LegacyNovel>
      reads this
    {
      Filtered(novels, searchQuery)
    }

    /** `loadNovels`, given the parsed document or `None` when fetching it failed. */
    method LoadNovels(data: Option<NovelsJson>)
      modifies this`novels
      ensures data.Some? ==> novels == data.value.novels
      ensures data.None? ==> novels == FallbackNovels
      ensures novels != [] || data.Some?
    {
      if data.Some? {
        novels := data.value.novels;
      } else {
        novels := FallbackNovels;
      }
    }

    /** `openNovel`. */
    method OpenNovel(novelId: int)
      modifies this`href
      ensures href == DetailUrl(ShowInt(novelId))
    {
      href := DetailUrl(ShowInt(novelId));
    }
  }

  /** Opening a listed novel leads to a detail page that reads back its id (0, which the detail
      page turns into 1, aside). */
  lemma OpenedNovelReadsBack(n: LegacyNovel)
    ensures UrlParam(DetailUrl(ShowInt(n.id)), "id") == if n.id == 0 then 1 else n.id
  {
    DetailAddressRoundTrip(n.id);
  }

  /** The fallback entry is found by any search text its title contains, e.g. "タイトル". */
  lemma FallbackFoundByTitle()
    ensures Filtered(FallbackNovels, "タイトル") == FallbackNovels
  {
    var title := FallbackNovels[0].title;
    assert forall k :: 0 <= k < 6 ==> Lower(title)[k] == title[k];
    assert Lower("タイトル") == "タイトル";
    assert Lower(title)[2..6] == "タイトル";
    IncludesAt(Lower(title), "タイトル", 2);
    FilterKeepsAll(FallbackNovels, (n: LegacyNovel) => TitleMatches("タイトル", n));
  }
}
