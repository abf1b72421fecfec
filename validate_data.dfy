/** The data-structure validator (scripts/validate_data.py): per manuscript directory, errors
    and warnings are collected; the run fails when any error was found. Messages are kept as
    structured issues; `print` and the log prefix are left out. */
module ValidateData {
  import opened Wrappers
  import opened Text
  import opened Manuscripts

  /** One collected message. Those that name `novel_path.name` always print "manuscript", the
      directory the script is given; those that name a path carry its book. */
  datatype Issue =
    | MissingInfo
    | InvalidYaml(book: string)
    | MissingField(field: string, book: string)
    | NoEpisodeFiles
    | MissingId(file: string)
    | DuplicateId(id: Value)
    | MissingTitle(file: string)
    | EmptyContent(file: string)
    | ReadError(book: string, file: string)
    | NoManuscript(book: string)

  predicate IsErrorKind(i: Issue)
  {
    i.MissingInfo? || i.InvalidYaml? || i.MissingField? || i.MissingId? || i.DuplicateId? || i.ReadError?
  }

  /** The warnings a single directory check can produce. */
  predicate IsDirectoryWarning(i: Issue)
  {
    i.NoEpisodeFiles? || i.MissingTitle? || i.EmptyContent?
  }

  /** `['title', 'author']`: `id` is numbered automatically and not required here. */
  const RequiredFields: seq<string> := ["title", "author"]

  /** The key an episode file adds to `episode_ids`: its parsed `id`, when present and hashable. */
  function IdKey(f: EpisodeFile): Option<Key>
  {
    if f.parsed.Some? && "id" in f.parsed.value.metadata then KeyOf(f.parsed.value.metadata["id"]) else None
  }

  /** `not content.strip()`: the body is empty or white space only. */
  predicate Blank(content: string)
  {
    content == [] || (IsPySpace(content[0]) && Blank(content[1..]))
  }

  lemma {:induction false} BlankIsEmptyAfterStrip(content: string)
    ensures Blank(content) <==> StripPy(content) == ""
  {
    StripEmptyIff(content, IsPySpace);
    BlankEverywhere(content);
  }

  lemma {:induction false} BlankEverywhere(content: string)
    ensures Blank(content) <==> forall k :: 0 <= k < |content| ==> IsPySpace(content[k])
  {
    if content != [] {
      BlankEverywhere(content[1..]);
      assert forall k :: 1 <= k < |content| ==> content[1..][k - 1] == content[k];
    }
  }

  /** The errors the loop body adds for one file. A read failure, or an unhashable `id` raising
      in the membership test, ends the `try` with one read error. */
  function FileErrors(book: string, f: EpisodeFile, seen: set<Key>): (r: seq<Issue>)
    ensures r == [] || (|r| == 1 && IsErrorKind(r[0]))
  {
    match f.parsed
    case None => [ReadError(book, f.name)]
    case Some(post) =>
      if "id" !in post.metadata then [MissingId(f.name)]
      else match KeyOf(post.metadata["id"])
        case None => [ReadError(book, f.name)]
        case Some(k) => if k in seen then [DuplicateId(post.metadata["id"])] else []
  }

  /** The warnings the loop body adds for one file: none when the `try` was left early. */
  function FileWarnings(f: EpisodeFile): (r: seq<Issue>)
    ensures |r| <= 2 && (|r| >= 1 ==> IsDirectoryWarning(r[0])) && (|r| == 2 ==> IsDirectoryWarning(r[1]))
  {
    match f.parsed
    case None => []
    case Some(post) =>
      if "id" in post.metadata && KeyOf(post.metadata["id"]).None? then []
      else
        (if "title" !in post.metadata then [MissingTitle(f.name)] else []) +
        (if Blank(post.content) then [EmptyContent(f.name)] else [])
  }

  /** `episode_ids` after one file: grown by the file's id key, if it has one. */
  function FileSeen(f: EpisodeFile, seen: set<Key>): set<Key>
  {
    match IdKey(f)
    case None => seen
    case Some(k) => seen + {k}
  }

  /** `episode_ids` after the first `n` files. */
  function SeenAfter(files: seq<EpisodeFile>, n: nat): set<Key>
    requires n <= |files|
  {
    if n == 0 then {} else FileSeen(files[n - 1], SeenAfter(files, n - 1))
  }

  /** The errors collected from the first `n` files. */
  function ErrorsAfter(book: string, files: seq<EpisodeFile>, n: nat): seq<Issue>
    requires n <= |files|
  {
    if n == 0 then [] else ErrorsAfter(book, files, n - 1) + FileErrors(book, files[n - 1], SeenAfter(files, n - 1))
  }

  /** The warnings collected from the first `n` files. */
  function WarningsAfter(files: seq<EpisodeFile>, n: nat): seq<Issue>
    requires n <= |files|
  {
    if n == 0 then [] else WarningsAfter(files, n - 1) + FileWarnings(files[n - 1])
  }

  /** The required-field errors for the given fields, in their order. */
  function FieldErrors(book: string, data: Record, fields: seq<string>): seq<Issue>
  {
    if fields == [] then []
    else (FieldErrors(book, data, fields[..|fields| - 1]) +
          if fields[|fields| - 1] in data then [] else [MissingField(fields[|fields| - 1], book)])
  }

  /** A directory's result; `Crashed` is the uncaught `TypeError` of testing a key against an
      empty document. */
  datatype DirReport = Report(errors: seq<Issue>, warnings: seq<Issue>) | Crashed

  /** What `validate_novel_directory` returns for a directory. */
  function Validation(book: string, dir: ManuscriptDir): DirReport
  {
    match dir.info
    case NoInfo => Report([MissingInfo], [])
    case BadYaml => Report([InvalidYaml(book)], [])
    case EmptyDoc => Crashed
    case Loaded(data) =>
      Report(FieldErrors(book, data, RequiredFields) + ErrorsAfter(book, dir.files, |dir.files|),
             (if dir.files == [] then [NoEpisodeFiles] else []) + WarningsAfter(dir.files, |dir.files|))
  }

  /** The loop over the episode files, with the error and warning lists and `episode_ids`. */
  method CheckEpisodeFiles(book: string, files: seq<EpisodeFile>) returns (errors: seq<Issue>, warnings: seq<Issue>, seen: set<Key>)
    ensures errors == ErrorsAfter(book, files, |files|)
    ensures warnings == WarningsAfter(files, |files|)
    ensures seen == SeenAfter(files, |files|)
  {
    errors, warnings, seen := [], [], {};
    for i := 0 to |files|
      invariant errors == ErrorsAfter(book, files, i)
      invariant warnings == WarningsAfter(files, i)
      invariant seen == SeenAfter(files, i)
    {
      var e, w, s := CheckEpisodeFile(book, files[i], seen);
      errors, warnings, seen := errors + e, warnings + w, s;
    }
  }

  /** The body of that loop for one file: the `try` that parses it, tests its `id` against
      `episode_ids` and checks its title and body. */
  method CheckEpisodeFile(book: string, f: EpisodeFile, seen: set<Key>) returns (errors: seq<Issue>, warnings: seq<Issue>, seen': set<Key>)
    ensures errors == FileErrors(book, f, seen)
    ensures warnings == FileWarnings(f)
    ensures seen' == FileSeen(f, seen)
  {
    errors, warnings, seen' := [], [], seen;
    match f.parsed {
      case None =>
        errors := [ReadError(book, f.name)];
      case Some(post) =>
        var hashable := true;
        if "id" !in post.metadata {
          errors := [MissingId(f.name)];
        } else {
          var id := post.metadata["id"];
          match KeyOf(id) {
            case None =>
              errors := [ReadError(book, f.name)];
              hashable := false;
            case Some(k) =>
              if k in seen {
                errors := [DuplicateId(id)];
              }
              seen' := seen + {k};
          }
        }
        if hashable {
          if "title" !in post.metadata {
            warnings := warnings + [MissingTitle(f.name)];
          }
          if Blank(post.content) {
            warnings := warnings + [EmptyContent(f.name)];
          }
        }
    }
  }

  /** `validate_novel_directory`. */
  method ValidateNovelDirectory(book: string, dir: ManuscriptDir) returns (report: DirReport)
    ensures report == Validation(book, dir)
  {
    match dir.info {
      case NoInfo =>
        return Report([MissingInfo], []);
      case BadYaml =>
        return Report([InvalidYaml(book)], []);
      case EmptyDoc =>
        return Crashed;
      case Loaded(data) =>
        var errors: seq<Issue> := [];
        var warnings: seq<Issue> := [];
        for j := 0 to |RequiredFields|
          invariant errors == FieldErrors(book, data, RequiredFields[..j])
        {
          assert RequiredFields[..j + 1][..j] == RequiredFields[..j];
          if RequiredFields[j] !in data {
            errors := errors + [MissingField(RequiredFields[j], book)];
          }
        }
        assert RequiredFields[..|RequiredFields|] == RequiredFields;
        if dir.files == [] {
          warnings := warnings + [NoEpisodeFiles];
        }
        var fileErrors, fileWarnings, _ := CheckEpisodeFiles(book, dir.files);
        return Report(errors + fileErrors, warnings + fileWarnings);
    }
  }

  /** A missing `info.yml` gives one error and nothing else; invalid YAML likewise. */
  lemma EarlyReturns(book: string, files: seq<EpisodeFile>)
    ensures Validation(book, ManuscriptDir(NoInfo, files)) == Report([MissingInfo], [])
    ensures Validation(book, ManuscriptDir(BadYaml, files)) == Report([InvalidYaml(book)], [])
  {
  }

  /** The required-field errors name exactly the missing `title` and `author`, in that order;
      whether `id` is present does not matter. */
  lemma FieldErrorsSpec(book: string, data: Record)
    ensures FieldErrors(book, data, RequiredFields) ==
      (if "title" in data then [] else [MissingField("title", book)]) +
      (if "author" in data then [] else [MissingField("author", book)])
    ensures FieldErrors(book, data, RequiredFields) == FieldErrors(book, data - {"id"}, RequiredFields)
  {
    assert RequiredFields[..1] == ["title"] && ["title"][..0] == [];
    var none := FieldErrors(book, data, []);
    var one := FieldErrors(book, data, ["title"]);
    assert one == none + (if "title" in data then [] else [MissingField("title", book)]);
    assert FieldErrors(book, data, RequiredFields) == one + (if "author" in data then [] else [MissingField("author", book)]);
    var data' := data - {"id"};
    assert FieldErrors(book, data', ["title"]) == FieldErrors(book, data', []) + (if "title" in data' then [] else [MissingField("title", book)]);
    assert FieldErrors(book, data', RequiredFields) == FieldErrors(book, data', ["title"]) + (if "author" in data' then [] else [MissingField("author", book)]);
  }

  /** Removing `id` from `info.yml` never changes the validator's verdict. */
  lemma IdNotRequired(book: string, data: Record, files: seq<EpisodeFile>)
    ensures Validation(book, ManuscriptDir(Loaded(data), files)) == Validation(book, ManuscriptDir(Loaded(data - {"id"}), files))
  {
    FieldErrorsSpec(book, data);
  }

  /** Every issue a directory check emits is of its list's kind: titles, empty bodies and a
      directory without episodes only ever warn; the other checks only ever err. */
  lemma {:induction false} CheckFilesKinds(book: string, files: seq<EpisodeFile>, n: nat)
    requires n <= |files|
    ensures forall i :: 0 <= i < |ErrorsAfter(book, files, n)| ==> IsErrorKind(ErrorsAfter(book, files, n)[i])
    ensures forall i :: 0 <= i < |WarningsAfter(files, n)| ==> IsDirectoryWarning(WarningsAfter(files, n)[i])
  {
    if n > 0 {
      CheckFilesKinds(book, files, n - 1);
    }
  }

  lemma {:induction false} FieldErrorsKinds(book: string, data: Record, fields: seq<string>)
    ensures forall i :: 0 <= i < |FieldErrors(book, data, fields)| ==> FieldErrors(book, data, fields)[i].MissingField?
  {
    if fields != [] {
      FieldErrorsKinds(book, data, fields[..|fields| - 1]);
    }
  }

  lemma ValidationKinds(book: string, dir: ManuscriptDir)
    ensures Validation(book, dir).Report? ==>
      && (forall i :: 0 <= i < |Validation(book, dir).errors| ==> IsErrorKind(Validation(book, dir).errors[i]))
      && (forall i :: 0 <= i < |Validation(book, dir).warnings| ==> IsDirectoryWarning(Validation(book, dir).warnings[i]))
  {
    CheckFilesKinds(book, dir.files, |dir.files|);
    if dir.info.Loaded? {
      FieldErrorsKinds(book, dir.info.data, RequiredFields);
    }
  }

  /** A directory without episode files gets a warning for it and no error beyond the
      required-field ones. */
  lemma NoFilesOnlyWarns(book: string, data: Record)
    ensures Validation(book, ManuscriptDir(Loaded(data), [])) ==
      Report(FieldErrors(book, data, RequiredFields), [NoEpisodeFiles])
  {
  }

  /** An episode without `id` is an error and leaves `episode_ids` as it was. */
  lemma MissingIdIsError(book: string, f: EpisodeFile, seen: set<Key>)
    requires f.parsed.Some? && "id" !in f.parsed.value.metadata
    ensures FileErrors(book, f, seen) == [MissingId(f.name)]
    ensures FileSeen(f, seen) == seen
  {
  }

  /** The errors of a parsed file depend on its `id` alone: its title and body, whatever they
      are, only ever add warnings. */
  lemma TitleAndContentOnlyWarn(book: string, name: string, m1: Record, c1: string, m2: Record, c2: string, seen: set<Key>)
    requires ("id" in m1 <==> "id" in m2) && ("id" in m1 ==> m1["id"] == m2["id"])
    ensures FileErrors(book, EpisodeFile(name, Some(Post(m1, c1))), seen) ==
            FileErrors(book, EpisodeFile(name, Some(Post(m2, c2))), seen)
    ensures FileSeen(EpisodeFile(name, Some(Post(m1, c1))), seen) ==
            FileSeen(EpisodeFile(name, Some(Post(m2, c2))), seen)
  {
  }

  /** A file with a fresh, hashable `id` adds no error; it is warned about exactly when it has
      no `title` or a blank body. */
  lemma FreshIdWarnings(book: string, f: EpisodeFile, seen: set<Key>)
    requires IdKey(f).Some? && IdKey(f).value !in seen
    ensures FileErrors(book, f, seen) == []
    ensures MissingTitle(f.name) in FileWarnings(f) <==> "title" !in f.parsed.value.metadata
    ensures EmptyContent(f.name) in FileWarnings(f) <==> StripPy(f.parsed.value.content) == ""
    ensures |FileWarnings(f)| <= 2
  {
    BlankIsEmptyAfterStrip(f.parsed.value.content);
  }

  /** How many of the first `n` files carry an `id` whose key is `k`. */
  function Occurrences(files: seq<EpisodeFile>, n: nat, k: Key): nat
    requires n <= |files|
  {
    if n == 0 then 0 else Occurrences(files, n - 1, k) + (if IdKey(files[n - 1]) == Some(k) then 1 else 0)
  }

  /** How many duplicate-id errors name a value with key `k`. */
  function DuplicatesOf(errors: seq<Issue>, k: Key): nat
  {
    if errors == [] then 0
    else (if NamesDuplicate(errors[0], k) then 1 else 0) + DuplicatesOf(errors[1..], k)
  }

  predicate NamesDuplicate(e: Issue, k: Key)
  {
    e.DuplicateId? && KeyOf(e.id) == Some(k)
  }

  lemma {:induction false} DuplicatesOfAppend(a: seq<Issue>, b: seq<Issue>, k: Key)
    ensures DuplicatesOf(a + b, k) == DuplicatesOf(a, k) + DuplicatesOf(b, k)
  {
    if a != [] {
      assert (a + b)[0] == a[0];
      assert (a + b)[1..] == a[1..] + b;
      DuplicatesOfAppend(a[1..], b, k);
    } else {
      assert a + b == b;
    }
  }

  lemma FileErrorsDuplicates(book: string, f: EpisodeFile, seen: set<Key>, k: Key)
    ensures DuplicatesOf(FileErrors(book, f, seen), k) == if IdKey(f) == Some(k) && k in seen then 1 else 0
  {
    var r := FileErrors(book, f, seen);
    if r != [] {
      assert r[..0] == [];
    }
  }

  /** After the first `n` files, `episode_ids` holds exactly the keys of the ids met so far, and
      an id met `m >= 1` times has been reported as a duplicate `m - 1` times. */
  predicate CountedUpTo(book: string, files: seq<EpisodeFile>, n: nat, k: Key)
    requires n <= |files|
  {
    && (k in SeenAfter(files, n) <==> Occurrences(files, n, k) > 0)
    && DuplicatesOf(ErrorsAfter(book, files, n), k) ==
         if Occurrences(files, n, k) == 0 then 0 else Occurrences(files, n, k) - 1
  }

  /** Files without an id, or with an unhashable one, add nothing to `episode_ids`; every
      duplicate of an id is reported once per repeated occurrence. */
  lemma {:induction false} DuplicatesCounted(book: string, files: seq<EpisodeFile>, n: nat, k: Key)
    requires n <= |files|
    ensures CountedUpTo(book, files, n, k)
  {
    if n > 0 {
      DuplicatesCounted(book, files, n - 1, k);
      CountedStep(book, files, n, k);
    }
  }

  lemma CountedStep(book: string, files: seq<EpisodeFile>, n: nat, k: Key)
    requires 0 < n <= |files| && CountedUpTo(book, files, n - 1, k)
    ensures CountedUpTo(book, files, n, k)
  {
    var errors, seen, f := ErrorsAfter(book, files, n - 1), SeenAfter(files, n - 1), files[n - 1];
    assert ErrorsAfter(book, files, n) == errors + FileErrors(book, f, seen);
    assert SeenAfter(files, n) == FileSeen(f, seen);
    FileSeenSpec(f, seen, k);
    DuplicatesOfAppend(errors, FileErrors(book, f, seen), k);
    FileErrorsDuplicates(book, f, seen, k);
  }

  lemma FileSeenSpec(f: EpisodeFile, seen: set<Key>, k: Key)
    ensures k in FileSeen(f, seen) <==> k in seen || IdKey(f) == Some(k)
  {
  }

  lemma {:induction false} FieldErrorsNoDuplicates(book: string, data: Record, fields: seq<string>, k: Key)
    ensures DuplicatesOf(FieldErrors(book, data, fields), k) == 0
  {
    if fields != [] {
      var init := FieldErrors(book, data, fields[..|fields| - 1]);
      FieldErrorsNoDuplicates(book, data, fields[..|fields| - 1], k);
      var last := if fields[|fields| - 1] in data then [] else [MissingField(fields[|fields| - 1], book)];
      DuplicatesOfAppend(init, last, k);
      if last != [] {
        assert last[..0] == [];
      }
    }
  }

  /** An episode id occurring `m >= 1` times in a directory yields `m - 1` duplicate errors. */
  lemma DuplicateIdsInDirectory(book: string, data: Record, files: seq<EpisodeFile>, k: Key)
    ensures var r := Validation(book, ManuscriptDir(Loaded(data), files));
      DuplicatesOf(r.errors, k) == if Occurrences(files, |files|, k) == 0 then 0 else Occurrences(files, |files|, k) - 1
  {
    DuplicatesCounted(book, files, |files|, k);
    FieldErrorsNoDuplicates(book, data, RequiredFields, k);
    DuplicatesOfAppend(FieldErrors(book, data, RequiredFields), ErrorsAfter(book, files, |files|), k);
  }

  // ---------------------------------------------------------------- main

  /** What a run of the script ends with: wrong arguments; a missing data directory; an
      uncaught exception; or the totals, printed with the number of novels. */
  datatype Run = Usage | NoDataDir | Crash | Completed(novelCount: nat, errors: seq<Issue>, warnings: seq<Issue>)

  /** The process exit status: 1 after a usage error, a missing directory, an uncaught
      exception, or any collected error; 0 otherwise. */
  function ExitStatus(r: Run): int
  {
    if r.Completed? && r.errors == [] then 0 else 1
  }

  datatype Totals = Totals(novelCount: nat, errors: seq<Issue>, warnings: seq<Issue>)

  /** The totals after the first `n` entries of the data directory, `None` once one crashed. */
  function Aggregate(entries: seq<BookEntry>, n: nat): Option<Totals>
    requires n <= |entries|
  {
    if n == 0 then Some(Totals(0, [], []))
    else match Aggregate(entries, n - 1)
      case None => None
      case Some(acc) =>
        var e := entries[n - 1];
        if !IsBook(e) then Some(acc)
        else match e.manuscript
          case None => Some(Totals(acc.novelCount, acc.errors, acc.warnings + [NoManuscript(e.name)]))
          case Some(dir) =>
            match Validation(e.name, dir)
            case Crashed => None
            case Report(errs, warns) => Some(Totals(acc.novelCount + 1, acc.errors + errs, acc.warnings + warns))
  }

  /** `main`: `argCount` is `len(sys.argv)`, `data` the entries of the data directory in
      `iterdir` order, `None` when it does not exist. */
  function MainResult(argCount: nat, data: Option<seq<BookEntry>>): Run
  {
    if argCount != 2 then Usage
    else if data.None? then NoDataDir
    else match Aggregate(data.value, |data.value|)
      case None => Crash
      case Some(t) => Completed(t.novelCount, t.errors, t.warnings)
  }

  lemma {:induction false} CrashPersists(entries: seq<BookEntry>, i: nat, n: nat)
    requires i <= n <= |entries| && Aggregate(entries, i).None?
    ensures Aggregate(entries, n).None?
  {
    if i < n {
      CrashPersists(entries, i, n - 1);
    }
  }

  /** `main`: the loop over the data directory, preceded by the argument and directory checks. */
  method RunScript(argCount: nat, data: Option<seq<BookEntry>>) returns (run: Run)
    ensures run == MainResult(argCount, data)
  {
    if argCount != 2 {
      return Usage;
    }
    if data.None? {
      return NoDataDir;
    }
    var entries := data.value;
    var novelCount: nat := 0;
    var totalErrors: seq<Issue> := [];
    var totalWarnings: seq<Issue> := [];
    for i := 0 to |entries|
      invariant Aggregate(entries, i) == Some(Totals(novelCount, totalErrors, totalWarnings))
    {
      var e := entries[i];
      if IsBook(e) {
        match e.manuscript {
          case None =>
            totalWarnings := totalWarnings + [NoManuscript(e.name)];
          case Some(dir) =>
            var report := ValidateNovelDirectory(e.name, dir);
            if report.Crashed? {
              CrashPersists(entries, i + 1, |entries|);
              return Crash;
            }
            novelCount := novelCount + 1;
            totalErrors := totalErrors + report.errors;
            totalWarnings := totalWarnings + report.warnings;
        }
      }
    }
    return Completed(novelCount, totalErrors, totalWarnings);
  }

  /** A completed run fails exactly when some directory reported an error: warnings alone
      pass; a usage error, a missing directory and a crash fail too. */
  lemma ExitStatusSpec(argCount: nat, data: Option<seq<BookEntry>>)
    ensures var r := MainResult(argCount, data);
      && (argCount != 2 || data.None? ==> ExitStatus(r) == 1)
      && (r == Crash ==> ExitStatus(r) == 1)
      && (r.Completed? ==>
            (ExitStatus(r) == 0 <==> forall i :: 0 <= i < |data.value| ==> Clean(data.value[i])))
  {
    if argCount == 2 && data.Some? && Aggregate(data.value, |data.value|).Some? {
      ErrorsIffSomeDirectoryErrs(data.value, |data.value|);
    }
  }

  /** An entry that reports no error: not a book with a manuscript, or one whose check found none. */
  predicate Clean(e: BookEntry)
  {
    IsBook(e) && e.manuscript.Some? ==>
      match Validation(e.name, e.manuscript.value)
      case Report(errs, _) => errs == []
      case Crashed => false
  }

  lemma {:induction false} ErrorsIffSomeDirectoryErrs(entries: seq<BookEntry>, n: nat)
    requires n <= |entries| && Aggregate(entries, n).Some?
    ensures Aggregate(entries, n).value.errors == [] <==> forall i :: 0 <= i < n ==> Clean(entries[i])
  {
    if n > 0 {
      ErrorsIffSomeDirectoryErrs(entries, n - 1);
      var e := entries[n - 1];
      if IsBook(e) && e.manuscript.Some? {
        var acc := Aggregate(entries, n - 1).value;
        assert Aggregate(entries, n).value.errors == acc.errors + Validation(e.name, e.manuscript.value).errors;
      }
    }
  }

  predicate HasManuscript(e: BookEntry) { IsBook(e) && e.manuscript.Some? }

  /** How many of the first `n` entries are book directories with a manuscript. */
  function BooksWithManuscript(entries: seq<BookEntry>, n: nat): nat
    requires n <= |entries|
  {
    if n == 0 then 0 else BooksWithManuscript(entries, n - 1) + (if HasManuscript(entries[n - 1]) then 1 else 0)
  }

  function SkippedBooks(entries: seq<BookEntry>, n: nat): nat
    requires n <= |entries|
  {
    if n == 0 then 0 else SkippedBooks(entries, n - 1) + (if IsBook(entries[n - 1]) && entries[n - 1].manuscript.None? then 1 else 0)
  }

  function SkipWarnings(warnings: seq<Issue>): nat
  {
    if warnings == [] then 0 else SkipWarnings(warnings[..|warnings| - 1]) + (if warnings[|warnings| - 1].NoManuscript? then 1 else 0)
  }

  lemma {:induction false} SkipWarningsAppend(a: seq<Issue>, b: seq<Issue>)
    ensures SkipWarnings(a + b) == SkipWarnings(a) + SkipWarnings(b)
  {
    if b != [] {
      assert (a + b)[..|a + b| - 1] == a + b[..|b| - 1];
      assert (a + b)[|a + b| - 1] == b[|b| - 1];
      SkipWarningsAppend(a, b[..|b| - 1]);
    } else {
      assert a + b == a;
    }
  }

  lemma {:induction false} ReportHasNoSkipWarnings(book: string, dir: ManuscriptDir)
    requires Validation(book, dir).Report?
    ensures SkipWarnings(Validation(book, dir).warnings) == 0
  {
    ValidationKinds(book, dir);
    var w := Validation(book, dir).warnings;
    NoSkipWarnings(w);
  }

  lemma {:induction false} NoSkipWarnings(w: seq<Issue>)
    requires forall i :: 0 <= i < |w| ==> !w[i].NoManuscript?
    ensures SkipWarnings(w) == 0
  {
    if w != [] {
      NoSkipWarnings(w[..|w| - 1]);
    }
  }

  /** Only book directories with a `manuscript` are counted; each book without one adds one
      skip warning. */
  lemma {:induction false} CountsBooks(entries: seq<BookEntry>, n: nat)
    requires n <= |entries| && Aggregate(entries, n).Some?
    ensures Aggregate(entries, n).value.novelCount == BooksWithManuscript(entries, n)
    ensures SkipWarnings(Aggregate(entries, n).value.warnings) == SkippedBooks(entries, n)
  {
    if n > 0 {
      CountsBooks(entries, n - 1);
      var acc := Aggregate(entries, n - 1).value;
      var e := entries[n - 1];
      if IsBook(e) {
        match e.manuscript {
          case None =>
            SkipWarningsAppend(acc.warnings, [NoManuscript(e.name)]);
            assert [NoManuscript(e.name)][..0] == [];
          case Some(dir) =>
            ReportHasNoSkipWarnings(e.name, dir);
            SkipWarningsAppend(acc.warnings, Validation(e.name, dir).warnings);
        }
      }
    }
  }
}
