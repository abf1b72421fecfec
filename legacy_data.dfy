/** What the Alpine.js pages of the static prototype (frontend/assets/js) share: the shape of
    `novels.json`, the reading of an integer URL parameter, and the page addresses they build
    and read back. Fetching and parsing the JSON file are outside the model: a page receives
    the parsed document, or `None` when `fetch` or `response.json()` failed. */
module LegacyData {
  import opened Wrappers
  import opened Text
  import opened NovelTypes
  import Search

  /** A novel entry of `novels.json`; `author` is absent from the list page's fallback entry. */
  datatype LegacyNovel = LegacyNovel(
    id: int,
    title: string,
    author: Option<string>,
    summary: string,
    updatedAt: string,
    episodes: int)

  /** An episode entry of `novels.json`. */
  datatype LegacyEpisode = LegacyEpisode(id: int, title: string, postDate: string, content: seq<Paragraph>)

  /** The document: the novel list, and the episode lists keyed by the novel id's decimal text. */
  datatype NovelsJson = NovelsJson(novels: seq<LegacyNovel>, episodes: map<string, seq<LegacyEpisode>>)

  const LoadErrorTitle := "データ読み込みエラー"
  const LoadErrorText := "データの読み込みに失敗しました。"

  /** `parseInt(urlParams.get(name)) || 1`: a missing parameter is `null`, read as the text
      "null"; `NaN` and 0 are falsy and give 1. */
  function ParamOrOne(value: Option<string>): (r: int)
    ensures r != 0
    ensures ParseInt(value.GetOr("null")).Some? && ParseInt(value.GetOr("null")).value != 0 ==>
      r == ParseInt(value.GetOr("null")).value
    ensures ParseInt(value.GetOr("null")).None? || ParseInt(value.GetOr("null")) == Some(0) ==> r == 1
  {
    match ParseInt(value.GetOr("null"))
    case None => 1
    case Some(n) => if n == 0 then 1 else n
  }

  /** A text starting with a letter other than a digit of radix 10 is `NaN` to `parseInt`. */
  lemma ParseIntOfWord(s: string)
    requires s != [] && 'a' <= s[0] <= 'z'
    ensures ParseInt(s).None?
  {
    TrimStartBare(s, IsJsSpace);
    assert DigitPrefix(s, 10) == [];
  }

  /** A missing parameter and a non-number give 1; a number's own text gives the number back,
      and "0" gives 1. */
  lemma ParamOrOneSpec(n: int)
    ensures ParamOrOne(None) == 1
    ensures ParamOrOne(Some("abc")) == 1
    ensures ParamOrOne(Some("0")) == 1
    ensures n != 0 ==> ParamOrOne(Some(ShowInt(n))) == n
  {
    ParseIntShowInt(n);
    ParseIntShowInt(0);
    assert ShowInt(0) == "0";
    ParseIntOfWord("null");
    ParseIntOfWord("abc");
  }

  /** The name-value pairs after the first `?` of an address, as `URLSearchParams` reads
      `location.search`; values here never need percent-decoding. */
  function QueryOf(href: string): seq<Search.Pair>
  {
    match SplitAtFirst(href, '?')
    case None => []
    case Some((_, query)) => PairsOf(Split(query, '&'))
  }

  function PairsOf(pieces: seq<string>): seq<Search.Pair>
  {
    if pieces == [] then [] else [PairOf(pieces[0])] + PairsOf(pieces[1..])
  }

  /** One `&`-separated piece: the name before the first `=` and the value after it, or the
      whole piece as a name with an empty value. */
  function PairOf(piece: string): Search.Pair
  {
    match SplitAtFirst(piece, '=')
    case None => (piece, "")
    case Some(pair) => pair
  }

  /** `parseInt(new URLSearchParams(location.search).get(name)) || 1` for the page at `href`. */
  function UrlParam(href: string, name: string): (r: int)
    ensures r != 0
  {
    ParamOrOne(Search.Lookup(QueryOf(href), name))
  }

  /** The episode page's address. */
  function EpisodeUrl(novelId: string, episodeId: string): string
  {
    "episode.html?novelId=" + novelId + "&episodeId=" + episodeId
  }

  /** The detail page's address. */
  function DetailUrl(novelId: string): string
  {
    "novel-detail.html?id=" + novelId
  }

  lemma NoSeparatorsInNumber(n: int)
    ensures '&' !in ShowInt(n) && '=' !in ShowInt(n) && '?' !in ShowInt(n)
  {
    var s := ShowInt(n);
    assert forall k :: 0 <= k < |s| ==> IsDecDigit(s[k]) || s[k] == '-';
  }

  /** One `name=value` piece splits back into its name and value and holds no `&`. */
  lemma NameValuePiece(name: string, value: string)
    requires '=' !in name && '&' !in name && '&' !in value
    ensures SplitAtFirst(name + "=" + value, '=') == Some((name, value))
    ensures '&' !in name + "=" + value
  {
    assert name + "=" + value == name + ['='] + value;
    SplitAtFirstOf(name, '=', value);
  }

  /** Two `&`-joined pieces that each split at `=` read back as their two pairs. */
  lemma TwoPairs(first: string, second: string, p: Search.Pair, q: Search.Pair)
    requires '&' !in first && '&' !in second
    requires SplitAtFirst(first, '=') == Some(p) && SplitAtFirst(second, '=') == Some(q)
    ensures PairsOf(Split(first + ['&'] + second, '&')) == [p, q]
  {
    SplitAfterWord(first, '&', second);
    SplitWithoutSeparator(second, '&');
    var pieces := [first, second];
    assert Split(first + ['&'] + second, '&') == pieces;
    assert pieces[1..] == [second];
    assert [second][1..] == [];
    assert PairsOf([second]) == [q];
    assert PairsOf(pieces) == [p] + PairsOf([second]);
  }

  lemma PairsOfPiece(name: string, value: string)
    requires '=' !in name && '&' !in name && '&' !in value
    ensures PairsOf(Split(name + "=" + value, '&')) == [(name, value)]
  {
    NameValuePiece(name, value);
    SplitWithoutSeparator(name + "=" + value, '&');
    assert [name + "=" + value][1..] == [];
  }

  /** The episode address, read back by the page it opens, gives the two numbers it was built
      from. */
  lemma EpisodeUrlReadsBack(novelId: int, episodeId: int)
    ensures var q := QueryOf(EpisodeUrl(ShowInt(novelId), ShowInt(episodeId)));
      && Search.Lookup(q, "novelId") == Some(ShowInt(novelId))
      && Search.Lookup(q, "episodeId") == Some(ShowInt(episodeId))
  {
    NoSeparatorsInNumber(novelId);
    NoSeparatorsInNumber(episodeId);
    EpisodeAddressOf(ShowInt(novelId), ShowInt(episodeId));
  }

  /** Any two texts free of `&` and `=` read back from the episode address they are written into. */
  lemma EpisodeAddressOf(a: string, b: string)
    requires '=' !in a && '&' !in a && '=' !in b && '&' !in b
    ensures var q := QueryOf(EpisodeUrl(a, b));
      && Search.Lookup(q, "novelId") == Some(a)
      && Search.Lookup(q, "episodeId") == Some(b)
  {
    EpisodeQuery(a, b);
    var q := [("novelId", a), ("episodeId", b)];
    assert q[1..] == [("episodeId", b)];
  }

  lemma EpisodeQuery(a: string, b: string)
    requires '=' !in a && '&' !in a && '=' !in b && '&' !in b
    ensures QueryOf(EpisodeUrl(a, b)) == [("novelId", a), ("episodeId", b)]
  {
    var query := "novelId=" + a + ['&'] + "episodeId=" + b;
    EpisodeQueryPairs(a, b);
    EpisodeUrlShape(a, b);
    AddressQuery("episode.html", query);
  }

  /** The episode address is the page name, `?`, and the two `&`-joined pieces. */
  lemma EpisodeUrlShape(a: string, b: string)
    ensures EpisodeUrl(a, b) == "episode.html" + ['?'] + ("novelId=" + a + ['&'] + "episodeId=" + b)
    ensures '?' !in "episode.html"
  {
    assert "episode.html?novelId=" == "episode.html" + ['?'] + "novelId=";
    assert "&episodeId=" == ['&'] + "episodeId=";
  }

  lemma AddressQuery(page: string, query: string)
    requires '?' !in page
    ensures QueryOf(page + ['?'] + query) == PairsOf(Split(query, '&'))
  {
    SplitAtFirstOf(page, '?', query);
  }

  lemma EpisodeQueryPairs(a: string, b: string)
    requires '=' !in a && '&' !in a && '=' !in b && '&' !in b
    ensures PairsOf(Split("novelId=" + a + ['&'] + "episodeId=" + b, '&')) == [("novelId", a), ("episodeId", b)]
  {
    assert "novelId=" == "novelId" + "=";
    assert "episodeId=" == "episodeId" + "=";
    NamedPairs("novelId", "novelId=", a, "episodeId", "episodeId=", b);
  }

  /** Two `name=value` pieces joined by `&` read back as their two pairs. */
  lemma NamedPairs(n1: string, p1: string, a: string, n2: string, p2: string, b: string)
    requires p1 == n1 + "=" && p2 == n2 + "="
    requires '=' !in n1 && '&' !in n1 && '=' !in n2 && '&' !in n2 && '&' !in a && '&' !in b
    ensures PairsOf(Split(p1 + a + ['&'] + p2 + b, '&')) == [(n1, a), (n2, b)]
  {
    var first, second := p1 + a, p2 + b;
    NameValuePiece(n1, a);
    NameValuePiece(n2, b);
    TwoPairs(first, second, (n1, a), (n2, b));
    assert p1 + a + ['&'] + p2 + b == first + ['&'] + second;
  }

  /** The detail address, read back by the detail page, gives the id it was built from. */
  lemma DetailUrlReadsBack(novelId: int)
    ensures QueryOf(DetailUrl(ShowInt(novelId))) == [("id", ShowInt(novelId))]
    ensures Search.Lookup(QueryOf(DetailUrl(ShowInt(novelId))), "id") == Some(ShowInt(novelId))
  {
    var a := ShowInt(novelId);
    NoSeparatorsInNumber(novelId);
    var query := "id" + "=" + a;
    assert DetailUrl(a) == "novel-detail.html" + ['?'] + query;
    SplitAtFirstOf("novel-detail.html", '?', query);
    PairsOfPiece("id", a);
  }

  /** A number written into an address by a page reads back as itself, except 0, which the
      `|| 1` turns into 1. */
  lemma EpisodeAddressRoundTrip(novelId: int, episodeId: int)
    ensures UrlParam(EpisodeUrl(ShowInt(novelId), ShowInt(episodeId)), "novelId") == if novelId == 0 then 1 else novelId
    ensures UrlParam(EpisodeUrl(ShowInt(novelId), ShowInt(episodeId)), "episodeId") == if episodeId == 0 then 1 else episodeId
  {
    EpisodeUrlReadsBack(novelId, episodeId);
    ParamOrOneSpec(novelId);
    ParamOrOneSpec(episodeId);
  }

  lemma DetailAddressRoundTrip(novelId: int)
    ensures UrlParam(DetailUrl(ShowInt(novelId)), "id") == if novelId == 0 then 1 else novelId
  {
    DetailUrlReadsBack(novelId);
    ParamOrOneSpec(novelId);
  }
}
