/** The record builder of the Supabase sync (scripts/sync_supabase.py): each manuscript
    directory becomes a novel record and its episode records, which are then upserted table by
    table. The clock is the parameter `now` (the ISO text of `datetime.now()`, one value for the
    whole run), and whether the REST endpoint accepts a POST is the parameter `accepts`. */
module SyncSupabase {
  import opened Wrappers
  import opened Seqs
  import opened Text
  import opened Manuscripts
  import ValidateData

  /** The outcome of `process_novel_directory`: `(None, [])`, the pair of a novel and its
      episodes, or the uncaught `TypeError` of testing a key against an empty document. */
  datatype Processed = Skipped | Novel(record: Record, episodes: seq<Record>) | Crashed

  predicate HasRequiredFields(data: Record)
  {
    "id" in data && "title" in data && "author" in data
  }

  /** An episode record: a copy of the front matter with the novel's id, the body and the
      update time written over it. */
  function Stamp(post: Post, novelId: int, now: string): Record
  {
    post.metadata["novel_id" := Int(novelId)]["content" := Str(post.content)]["updated_at" := Str(now)]
  }

  /** A file that yields an episode: it parsed, and the copied record has an `id`. */
  predicate Usable(f: EpisodeFile)
  {
    f.parsed.Some? && "id" in f.parsed.value.metadata
  }

  function StampFile(f: EpisodeFile, novelId: int, now: string): Record
  {
    match f.parsed
    case None => map[]
    case Some(post) => Stamp(post, novelId, now)
  }

  /** The episode records of the first `n` files. */
  function EpisodeRecords(files: seq<EpisodeFile>, n: nat, novelId: int, now: string): seq<Record>
    requires n <= |files|
  {
    if n == 0 then []
    else (EpisodeRecords(files, n - 1, novelId, now) +
          if Usable(files[n - 1]) then [StampFile(files[n - 1], novelId, now)] else [])
  }

  /** What `process_novel_directory` returns. */
  function Processing(dir: ManuscriptDir, now: string): Processed
  {
    match dir.info
    case NoInfo => Skipped
    case BadYaml => Skipped
    case EmptyDoc => Crashed
    case Loaded(data) =>
      if !HasRequiredFields(data) then Skipped
      else match PyInt(data["id"])
        case None => Skipped
        case Some(id) =>
          var files := SortByName(dir.files);
          Novel(data["id" := Int(id)]["updated_at" := Str(now)], EpisodeRecords(files, |files|, id, now))
  }

  /** `process_novel_directory`. */
  method ProcessNovelDirectory(dir: ManuscriptDir, now: string) returns (result: Processed)
    ensures result == Processing(dir, now)
  {
    match dir.info {
      case NoInfo =>
        return Skipped;
      case BadYaml =>
        return Skipped;
      case EmptyDoc =>
        return Crashed;
      case Loaded(data) =>
        if !HasRequiredFields(data) {
          return Skipped;
        }
        var id;
        match PyInt(data["id"]) {
          case None =>
            return Skipped;
          case Some(i) =>
            id := i;
        }
        var novel := data["id" := Int(id)];
        novel := novel["updated_at" := Str(now)];
        var files := SortByName(dir.files);
        var episodes: seq<Record> := [];
        for i := 0 to |files|
          invariant episodes == EpisodeRecords(files, i, id, now)
        {
          var more := EpisodeOf(files[i], id, now);
          episodes := episodes + more;
        }
        return Novel(novel, episodes);
    }
  }

  /** One round of the loop over the sorted files: the stamped record of a parsed file whose
      record has an `id`, or nothing. */
  method EpisodeOf(f: EpisodeFile, id: int, now: string) returns (more: seq<Record>)
    ensures more == if Usable(f) then [StampFile(f, id, now)] else []
  {
    more := [];
    match f.parsed {
      case None =>
      case Some(post) =>
        var episode := post.metadata;
        episode := episode["novel_id" := Int(id)];
        episode := episode["content" := Str(post.content)];
        episode := episode["updated_at" := Str(now)];
        if "id" in episode {
          more := [episode];
        }
    }
  }

  /** The novel is skipped exactly when `info.yml` is missing or unreadable, a required field is
      absent, or the id does not convert; otherwise its id is the converted integer, its update
      time is `now`, and every other field is kept. */
  lemma ProcessingSpec(dir: ManuscriptDir, now: string)
    ensures var r := Processing(dir, now);
      && (r.Crashed? <==> dir.info.EmptyDoc?)
      && (r.Skipped? <==>
            || dir.info.NoInfo? || dir.info.BadYaml?
            || (dir.info.Loaded? && !HasRequiredFields(dir.info.data))
            || (dir.info.Loaded? && HasRequiredFields(dir.info.data) && PyInt(dir.info.data["id"]).None?))
      && (r.Novel? ==>
            && dir.info.Loaded? && HasRequiredFields(dir.info.data)
            && PyInt(dir.info.data["id"]).Some?
            && r.record["id"] == Int(PyInt(dir.info.data["id"]).value)
            && r.record["updated_at"] == Str(now)
            && r.record.Keys == dir.info.data.Keys + {"updated_at"}
            && (forall key :: key in dir.info.data && key != "id" && key != "updated_at" ==> r.record[key] == dir.info.data[key]))
  {
  }

  /** An id written as decimal text, with or without padding, becomes that integer. */
  lemma TextIdConverts(data: Record, n: int, files: seq<EpisodeFile>, now: string)
    requires HasRequiredFields(data) && data["id"] == Str(" " + ShowInt(n) + "\n")
    ensures Processing(ManuscriptDir(Loaded(data), files), now).Novel?
    ensures Processing(ManuscriptDir(Loaded(data), files), now).record["id"] == Int(n)
  {
    PyIntOfDecimal(n);
    ConvertedId(ManuscriptDir(Loaded(data), files), now, n);
  }

  lemma ConvertedId(dir: ManuscriptDir, now: string, id: int)
    requires dir.info.Loaded? && HasRequiredFields(dir.info.data) && PyInt(dir.info.data["id"]) == Some(id)
    ensures Processing(dir, now).Novel? && Processing(dir, now).record["id"] == Int(id)
  {
  }

  /** The episode records are the usable files, stamped, in the order given: a filter followed
      by a map. */
  lemma {:induction false} EpisodeRecordsIsFilterMap(files: seq<EpisodeFile>, n: nat, novelId: int, now: string)
    requires n <= |files|
    ensures EpisodeRecords(files, n, novelId, now) == Map(Filter(files[..n], Usable), (f: EpisodeFile) => StampFile(f, novelId, now))
  {
    var stamp := (f: EpisodeFile) => StampFile(f, novelId, now);
    if n == 0 {
      assert files[..0] == [];
    } else {
      EpisodeRecordsIsFilterMap(files, n - 1, novelId, now);
      assert files[..n] == files[..n - 1] + [files[n - 1]];
      FilterMapAppend(files[..n - 1], files[n - 1], Usable, stamp);
    }
  }

  /** Every episode record carries the novel's integer id, its file's body and `now`, keeps every
      other front-matter key, and has an `id`. */
  lemma {:induction false} EpisodeRecordsStamped(files: seq<EpisodeFile>, n: nat, novelId: int, now: string)
    requires n <= |files|
    ensures forall r :: r in EpisodeRecords(files, n, novelId, now) ==>
      && "novel_id" in r && r["novel_id"] == Int(novelId)
      && "updated_at" in r && r["updated_at"] == Str(now)
      && "id" in r && "content" in r
      && exists i :: 0 <= i < n && Usable(files[i]) && r == Stamp(files[i].parsed.value, novelId, now)
  {
    if n > 0 {
      EpisodeRecordsStamped(files, n - 1, novelId, now);
    }
  }

  /** The stamped keys overwrite the front matter; every other key is copied unchanged. */
  lemma StampSpec(post: Post, novelId: int, now: string)
    ensures var r := Stamp(post, novelId, now);
      && r["novel_id"] == Int(novelId) && r["content"] == Str(post.content) && r["updated_at"] == Str(now)
      && r.Keys == post.metadata.Keys + {"novel_id", "content", "updated_at"}
      && forall key :: key in post.metadata && key != "novel_id" && key != "content" && key != "updated_at" ==>
           r[key] == post.metadata[key]
  {
  }

  /** Any two files, the earlier one first, are in name order. */
  predicate InNameOrder(files: seq<EpisodeFile>)
  {
    forall i, j :: 0 <= i <= j < |files| ==> NameLe(files[i].name, files[j].name)
  }

  lemma TailInNameOrder(files: seq<EpisodeFile>)
    requires files != [] && InNameOrder(files)
    ensures InNameOrder(files[1..])
    ensures forall x :: x in files[1..] ==> NameLe(files[0].name, x.name)
  {
    assert forall i :: 0 <= i < |files[1..]| ==> files[1..][i] == files[i + 1];
  }

  lemma ConsInNameOrder(f: EpisodeFile, rest: seq<EpisodeFile>)
    requires InNameOrder(rest) && forall x :: x in rest ==> NameLe(f.name, x.name)
    ensures InNameOrder([f] + rest)
  {
    var all := [f] + rest;
    forall i, j | 0 <= i <= j < |all|
      ensures NameLe(all[i].name, all[j].name)
    {
      if i == 0 && j == 0 {
        NameLeTotal(f.name, f.name);
      } else if i == 0 {
        assert all[j] == rest[j - 1];
        assert all[j] in rest;
      } else {
        assert all[i] == rest[i - 1] && all[j] == rest[j - 1];
      }
    }
  }

  /** The usable files are visited in file-name order. */
  lemma {:induction false} FilterKeepsNameOrder(files: seq<EpisodeFile>)
    requires InNameOrder(files)
    ensures InNameOrder(Filter(files, Usable))
  {
    if files != [] {
      TailInNameOrder(files);
      FilterKeepsNameOrder(files[1..]);
      var rest := Filter(files[1..], Usable);
      if Usable(files[0]) {
        assert Filter(files, Usable) == [files[0]] + rest;
        ConsInNameOrder(files[0], rest);
      } else {
        assert Filter(files, Usable) == rest;
      }
    }
  }

  /** A processed novel's episodes come from its directory's usable files sorted by name. */
  lemma EpisodesInNameOrder(dir: ManuscriptDir, now: string)
    requires Processing(dir, now).Novel?
    ensures var files := SortByName(dir.files);
      var kept := Filter(files, Usable);
      && InNameOrder(kept)
      && Processing(dir, now).episodes ==
           Map(kept, (f: EpisodeFile) => StampFile(f, PyInt(dir.info.data["id"]).value, now))
  {
    var files := SortByName(dir.files);
    SortedInNameOrder(dir.files);
    FilterKeepsNameOrder(files);
    var id := PyInt(dir.info.data["id"]).value;
    assert Processing(dir, now).episodes == EpisodeRecords(files, |files|, id, now);
    AllEpisodeRecords(files, id, now);
  }

  /** The sorted files are in name order. */
  lemma SortedInNameOrder(files: seq<EpisodeFile>)
    ensures InNameOrder(SortByName(files))
  {
    var sorted := SortByName(files);
    SortByNameSpec(files);
    forall i, j | 0 <= i <= j < |sorted|
      ensures NameLe(sorted[i].name, sorted[j].name)
    {
      SortedPairwise(sorted, i, j);
    }
  }

  /** The records of all files are the stamped usable ones. */
  lemma AllEpisodeRecords(files: seq<EpisodeFile>, id: int, now: string)
    ensures EpisodeRecords(files, |files|, id, now) ==
      Map(Filter(files, Usable), (f: EpisodeFile) => StampFile(f, id, now))
  {
    EpisodeRecordsIsFilterMap(files, |files|, id, now);
    assert files[..|files|] == files;
  }

  // ---------------------------------------------------------------- upserting

  /** The headers of every REST call; the service key authenticates it twice. */
  function Headers(key: string): seq<(string, string)>
  {
    [("apikey", key), ("Authorization", "Bearer " + key), ("Content-Type", "application/json"),
     ("Prefer", "resolution=merge-duplicates")]
  }

  /** One POST to the REST endpoint of a table. */
  datatype Request = Request(url: string, headers: seq<(string, string)>, records: seq<Record>)

  /** A value `json.dumps` can encode: a YAML date (`datetime.date`) cannot, at any depth. */
  predicate JsonEncodable(v: Value)
  {
    match v
    case Date(_, _, _) => false
    case Collection(items) => forall i :: 0 <= i < |items| ==> JsonEncodable(items[i])
    case _ => true
  }

  /** Records `json=data` can serialize: every value of every record is encodable. */
  predicate JsonRecords(data: seq<Record>)
  {
    forall i, k :: 0 <= i < |data| && k in data[i] ==> JsonEncodable(data[i][k])
  }

  /** What one `upsert_data` call does: nothing for empty data; a `TypeError` from serializing
      the data, raised before anything is sent and not caught by the `RequestException`
      handler; or the POST, accepted or not. */
  datatype Upserted = NothingSent | Raised | Posted(request: Request, accepted: bool)

  /** `upsert_data`; a refused request ends the run with status 1. */
  method UpsertData(base: string, key: string, table: string, data: seq<Record>, accepts: string -> bool)
    returns (outcome: Upserted)
    ensures data == [] <==> outcome == NothingSent
    ensures data != [] && !JsonRecords(data) <==> outcome == Raised
    ensures data != [] && JsonRecords(data) ==>
      outcome == Posted(Request(base + "/rest/v1/" + table, Headers(key), data), accepts(table))
  {
    if data == [] {
      return NothingSent;
    }
    var url := base + "/rest/v1/" + table;
    if !JsonRecords(data) {
      return Raised;
    }
    outcome := Posted(Request(url, Headers(key), data), accepts(table));
  }

  /** The novels and episodes collected from the first `n` entries, `None` once one crashed. */
  function Collect(entries: seq<BookEntry>, n: nat, now: string): Option<(seq<Record>, seq<Record>)>
    requires n <= |entries|
  {
    if n == 0 then Some(([], []))
    else match Collect(entries, n - 1, now)
      case None => None
      case Some(acc) => CollectEntry(acc, entries[n - 1], now)
  }

  /** One round of `main`'s loop: a book's novel and episodes are appended when it processed. */
  function CollectEntry(acc: (seq<Record>, seq<Record>), e: BookEntry, now: string): Option<(seq<Record>, seq<Record>)>
  {
    if !IsBook(e) || e.manuscript.None? then Some(acc)
    else match Processing(e.manuscript.value, now)
      case Crashed => None
      case Skipped => Some(acc)
      case Novel(record, eps) => Some((acc.0 + [record], acc.1 + eps))
  }

  /** How a run ends: missing Supabase settings (checked on import, before the arguments);
      wrong arguments; a missing data directory; an uncaught exception while collecting; no valid
      novel; the requests sent and the exit status; or the uncaught `TypeError` of records that
      cannot be serialized, after the requests sent before it. */
  datatype SyncRun =
    | MissingSettings
    | Usage
    | NoDataDir
    | Crash
    | NothingToSync
    | Synced(requests: seq<Request>, exitCode: int)
    | Unencodable(requests: seq<Request>)

  function SyncResult(url: Option<string>, key: Option<string>, argCount: nat, data: Option<seq<BookEntry>>,
                      now: string, accepts: string -> bool): SyncRun
  {
    if !Truthy(url) || !Truthy(key) then MissingSettings
    else if argCount != 2 then Usage
    else if data.None? then NoDataDir
    else match Collect(data.value, |data.value|, now)
      case None => Crash
      case Some((novels, episodes)) =>
        if novels == [] then NothingToSync else Uploads(url.value, key.value, novels, episodes, accepts)
  }

  /** The novels are upserted first; the episodes follow only when that succeeded and there are
      some. The run fails when either request does, and dies when the records to be sent hold a
      date. */
  function Uploads(base: string, key: string, novels: seq<Record>, episodes: seq<Record>,
                   accepts: string -> bool): SyncRun
  {
    var first := Request(base + "/rest/v1/novels", Headers(key), novels);
    if !JsonRecords(novels) then Unencodable([])
    else if !accepts("novels") then Synced([first], 1)
    else if episodes == [] then Synced([first], 0)
    else if !JsonRecords(episodes) then Unencodable([first])
    else Synced([first, Request(base + "/rest/v1/episodes", Headers(key), episodes)],
                if accepts("episodes") then 0 else 1)
  }

  lemma {:induction false} CrashPersists(entries: seq<BookEntry>, i: nat, n: nat, now: string)
    requires i <= n <= |entries| && Collect(entries, i, now).None?
    ensures Collect(entries, n, now).None?
  {
    if i < n {
      CrashPersists(entries, i, n - 1, now);
      CollectStops(entries, n, now);
    }
  }

  lemma CollectStops(entries: seq<BookEntry>, n: nat, now: string)
    requires 0 < n <= |entries| && Collect(entries, n - 1, now).None?
    ensures Collect(entries, n, now).None?
  {
  }

  /** `main`, preceded by the settings check that runs on import. */
  method RunScript(url: Option<string>, key: Option<string>, argCount: nat, data: Option<seq<BookEntry>>,
              now: string, accepts: string -> bool) returns (run: SyncRun)
    ensures run == SyncResult(url, key, argCount, data, now, accepts)
  {
    if !Truthy(url) || !Truthy(key) {
      return MissingSettings;
    }
    if argCount != 2 {
      return Usage;
    }
    if data.None? {
      return NoDataDir;
    }
    var collected := CollectAll(data.value, now);
    if collected.None? {
      return Crash;
    }
    var (allNovels, allEpisodes) := collected.value;
    if allNovels == [] {
      return NothingToSync;
    }
    run := Upload(url.value, key.value, allNovels, allEpisodes, accepts);
  }

  /** The loop over the data directory: every book's records, in order, or `None` once one
      directory crashes. */
  method CollectAll(entries: seq<BookEntry>, now: string) returns (collected: Option<(seq<Record>, seq<Record>)>)
    ensures collected == Collect(entries, |entries|, now)
  {
    var allNovels: seq<Record> := [];
    var allEpisodes: seq<Record> := [];
    for i := 0 to |entries|
      invariant Collect(entries, i, now) == Some((allNovels, allEpisodes))
    {
      var next := CollectBook(allNovels, allEpisodes, entries[i], now);
      if next.None? {
        CrashPersists(entries, i + 1, |entries|, now);
        return None;
      }
      allNovels, allEpisodes := next.value.0, next.value.1;
    }
    return Some((allNovels, allEpisodes));
  }

  /** One entry of the data directory: a book's directory is processed and its records appended. */
  method CollectBook(allNovels: seq<Record>, allEpisodes: seq<Record>, e: BookEntry, now: string)
    returns (next: Option<(seq<Record>, seq<Record>)>)
    ensures next == CollectEntry((allNovels, allEpisodes), e, now)
  {
    next := Some((allNovels, allEpisodes));
    if IsBook(e) && e.manuscript.Some? {
      var processed := ProcessNovelDirectory(e.manuscript.value, now);
      match processed {
        case Crashed =>
          next := None;
        case Skipped =>
        case Novel(record, episodes) =>
          next := Some((allNovels + [record], allEpisodes + episodes));
      }
    }
  }

  /** The two upserts. */
  method Upload(base: string, key: string, novels: seq<Record>, episodes: seq<Record>, accepts: string -> bool)
    returns (run: SyncRun)
    requires novels != []
    ensures run == Uploads(base, key, novels, episodes, accepts)
  {
    assert base + "/rest/v1/" + "novels" == base + "/rest/v1/novels";
    assert base + "/rest/v1/" + "episodes" == base + "/rest/v1/episodes";
    var first := UpsertData(base, key, "novels", novels, accepts);
    if first.Raised? {
      return Unencodable([]);
    }
    var sent := [first.request];
    if !first.accepted {
      return Synced(sent, 1);
    }
    var second := UpsertData(base, key, "episodes", episodes, accepts);
    match second {
      case NothingSent =>
        return Synced(sent, 0);
      case Raised =>
        return Unencodable(sent);
      case Posted(request, accepted) =>
        return Synced(sent + [request], if accepted then 0 else 1);
    }
  }

  /** Nothing is sent without a valid novel; the novels go first; episodes are sent only when
      there are some and the novels were accepted; no request carries empty data or a value
      `json.dumps` refuses; a run that dies on such a value has sent at most the novels. */
  lemma SyncSpec(url: Option<string>, key: Option<string>, argCount: nat, data: Option<seq<BookEntry>>,
                 now: string, accepts: string -> bool)
    ensures var r := SyncResult(url, key, argCount, data, now, accepts);
      && (r.Synced? ==>
            && 1 <= |r.requests| <= 2
            && r.requests[0].url == url.value + "/rest/v1/novels"
            && (forall i :: 0 <= i < |r.requests| ==> r.requests[i].records != [])
            && (|r.requests| == 2 ==> accepts("novels") && r.requests[1].url == url.value + "/rest/v1/episodes")
            && (forall i :: 0 <= i < |r.requests| ==> JsonRecords(r.requests[i].records))
            && (r.exitCode == 0 <==> accepts("novels") && (|r.requests| == 2 ==> accepts("episodes"))))
      && (r.Unencodable? ==>
            && |r.requests| <= 1
            && (|r.requests| == 1 ==>
                  && accepts("novels") && r.requests[0].url == url.value + "/rest/v1/novels"
                  && JsonRecords(r.requests[0].records) && r.requests[0].records != []))
      && (data.Some? && Collect(data.value, |data.value|, now) == Some(([], [])) && Truthy(url) && Truthy(key) && argCount == 2 ==>
            r == NothingToSync)
  {
    if Truthy(url) && Truthy(key) && argCount == 2 && data.Some? {
      match Collect(data.value, |data.value|, now)
      case None =>
      case Some((novels, episodes)) =>
        if novels != [] {
          UploadsSpec(url.value, key.value, novels, episodes, accepts);
        }
    }
  }

  /** The two upserts of one run, for non-empty novels. */
  lemma UploadsSpec(base: string, key: string, novels: seq<Record>, episodes: seq<Record>,
                    accepts: string -> bool)
    requires novels != []
    ensures var r := Uploads(base, key, novels, episodes, accepts);
      && (r.Synced? ==>
            && 1 <= |r.requests| <= 2
            && r.requests[0].url == base + "/rest/v1/novels"
            && (forall i :: 0 <= i < |r.requests| ==> r.requests[i].records != [])
            && (|r.requests| == 2 ==> accepts("novels") && r.requests[1].url == base + "/rest/v1/episodes")
            && (forall i :: 0 <= i < |r.requests| ==> JsonRecords(r.requests[i].records))
            && (r.exitCode == 0 <==> accepts("novels") && (|r.requests| == 2 ==> accepts("episodes"))))
      && (r.Unencodable? ==>
            && |r.requests| <= 1
            && (|r.requests| == 1 ==>
                  && accepts("novels") && r.requests[0].url == base + "/rest/v1/novels"
                  && JsonRecords(r.requests[0].records) && r.requests[0].records != []))
  {
  }

  /** A date in any field of a processed book's `info.yml` other than `id` and `updated_at`
      reaches its novel record unchanged, so serializing the novels raises before any request is
      sent. */
  lemma DatedInfoSendsNothing(url: Option<string>, key: Option<string>, entries: seq<BookEntry>,
                              now: string, accepts: string -> bool, i: nat, field: string)
    requires Truthy(url) && Truthy(key) && i < |entries| && Collect(entries, |entries|, now).Some?
    requires IsBook(entries[i]) && entries[i].manuscript.Some? && Processing(entries[i].manuscript.value, now).Novel?
    requires var info := entries[i].manuscript.value.info;
      info.Loaded? && field in info.data && field != "id" && field != "updated_at" && info.data[field].Date?
    ensures SyncResult(url, key, 2, Some(entries), now, accepts) == Unencodable([])
  {
    var dir := entries[i].manuscript.value;
    var m := Processing(dir, now).record;
    ProcessingSpec(dir, now);
    assert m[field] == dir.info.data[field];
    assert ProcessedTo(entries, i, now, m);
    NovelsAreProcessed(entries, |entries|, now, m);
    var novels := Collect(entries, |entries|, now).value.0;
    var j :| 0 <= j < |novels| && novels[j] == m;
    assert !JsonEncodable(novels[j][field]);
  }

  /** Every collected episode belongs to a collected novel: its `novel_id` is that novel's id. */
  lemma {:induction false} EpisodesBelongToNovels(entries: seq<BookEntry>, n: nat, now: string)
    requires n <= |entries| && Collect(entries, n, now).Some?
    ensures var (novels, episodes) := Collect(entries, n, now).value;
      forall e :: e in episodes ==> "novel_id" in e && exists m :: m in novels && "id" in m && e["novel_id"] == m["id"]
  {
    if n > 0 {
      EpisodesBelongToNovels(entries, n - 1, now);
      var (novels, episodes) := Collect(entries, n - 1, now).value;
      var entry := entries[n - 1];
      if IsBook(entry) && entry.manuscript.Some? {
        var dir := entry.manuscript.value;
        match Processing(dir, now)
        case Novel(record, eps) =>
          var id := PyInt(dir.info.data["id"]).value;
          var files := SortByName(dir.files);
          EpisodeRecordsStamped(files, |files|, id, now);
          assert record["id"] == Int(id);
          assert record in novels + [record];
        case _ =>
      }
    }
  }

  /** The novel of entry `i`, when it is a book whose manuscript processed successfully. */
  predicate ProcessedTo(entries: seq<BookEntry>, i: nat, now: string, record: Record)
    requires i < |entries|
  {
    Yields(entries[i], now, record)
  }

  predicate Yields(e: BookEntry, now: string, record: Record)
  {
    && IsBook(e) && e.manuscript.Some?
    && Processing(e.manuscript.value, now).Novel?
    && Processing(e.manuscript.value, now).record == record
  }

  /** `all_novels` holds exactly the novels of the books that processed successfully: skipped
      books contribute nothing. */
  lemma {:induction false} NovelsAreProcessed(entries: seq<BookEntry>, n: nat, now: string, m: Record)
    requires n <= |entries| && Collect(entries, n, now).Some?
    ensures m in Collect(entries, n, now).value.0 <==> exists i :: 0 <= i < n && ProcessedTo(entries, i, now, m)
  {
    if n > 0 {
      CollectStep(entries, n, now);
      NovelsAreProcessed(entries, n - 1, now, m);
      CollectEntryNovels(Collect(entries, n - 1, now).value, entries[n - 1], now, m);
      ProcessedStep(entries, n, now, m);
    }
  }

  /** A run that got past entry `n` got past the ones before it, and took one more round. */
  lemma CollectStep(entries: seq<BookEntry>, n: nat, now: string)
    requires 0 < n <= |entries| && Collect(entries, n, now).Some?
    ensures Collect(entries, n - 1, now).Some?
    ensures Collect(entries, n, now) == CollectEntry(Collect(entries, n - 1, now).value, entries[n - 1], now)
  {
  }

  lemma ProcessedStep(entries: seq<BookEntry>, n: nat, now: string, m: Record)
    requires 0 < n <= |entries|
    ensures (exists i :: 0 <= i < n && ProcessedTo(entries, i, now, m)) <==>
      (exists i :: 0 <= i < n - 1 && ProcessedTo(entries, i, now, m)) || Yields(entries[n - 1], now, m)
  {
    if Yields(entries[n - 1], now, m) {
      assert ProcessedTo(entries, n - 1, now, m);
    }
  }

  /** One entry adds its novel to `all_novels` exactly when it yields one. */
  lemma CollectEntryNovels(acc: (seq<Record>, seq<Record>), e: BookEntry, now: string, m: Record)
    requires CollectEntry(acc, e, now).Some?
    ensures m in CollectEntry(acc, e, now).value.0 <==> m in acc.0 || Yields(e, now, m)
  {
  }

  // ---------------------------------------------------------------- against the validator

  /** The validator does not ask for `id` but the sync does: a directory with a titled, authored
      `info.yml` and no `id` passes validation with no error at all and is skipped by the sync. */
  lemma PassesValidationButSkipped(book: string, now: string)
    ensures var data := map["title" := Str("Title"), "author" := Str("Author")];
      var files := [EpisodeFile("001.md", Some(Post(map["id" := Int(1), "title" := Str("One")], "Text")))];
      var dir := ManuscriptDir(Loaded(data), files);
      && ValidateData.Validation(book, dir) == ValidateData.Report([], [])
      && Processing(dir, now) == Skipped
  {
    var data := map["title" := Str("Title"), "author" := Str("Author")];
    var files := [EpisodeFile("001.md", Some(Post(map["id" := Int(1), "title" := Str("One")], "Text")))];
    ValidateData.FieldErrorsSpec(book, data);
    assert !ValidateData.Blank("Text");
    assert ValidateData.FileErrors(book, files[0], {}) == [];
    assert ValidateData.FileWarnings(files[0]) == [];
    assert ValidateData.ErrorsAfter(book, files, 1) == [];
    assert ValidateData.WarningsAfter(files, 1) == [];
  }

  /** In general: whenever `info.yml` lacks `id`, the sync skips the directory, whatever the
      validator reports. */
  lemma MissingIdSkipped(dir: ManuscriptDir, now: string)
    requires dir.info.Loaded? && "id" !in dir.info.data
    ensures Processing(dir, now) == Skipped
    ensures ValidateData.Validation("book", dir) == ValidateData.Validation("book", ManuscriptDir(Loaded(dir.info.data["id" := Int(1)]), dir.files))
  {
    ValidateData.IdNotRequired("book", dir.info.data["id" := Int(1)], dir.files);
    assert dir.info.data["id" := Int(1)] - {"id"} == dir.info.data;
  }
}
