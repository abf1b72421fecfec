/** The data directory as the two maintenance scripts (scripts/validate_data.py and
    scripts/sync_supabase.py) see it once files are read: YAML and front-matter parsing is
    outside the model, so a directory arrives with its parsed `info.yml` and its parsed episode
    files. The Python values those parsers produce, Python's `int()` and Python's hashing
    equality are modelled here. */
module Manuscripts {
  import opened Wrappers
  import opened Text

  /** A YAML scalar or collection, as `yaml.safe_load` and `frontmatter` produce it. */
  datatype Value =
    | Int(i: int)
    | Bool(b: bool)
    | Str(s: string)
    | Null
    | Date(year: int, month: int, day: int)
    | Collection(items: seq<Value>)

  /** A YAML mapping with string keys: `info.yml`, a front-matter block, or a record to upsert. */
  type Record = map<string, Value>

  /** The outcome of reading `info.yml`: absent; not valid YAML; an empty document, which loads
      as `None`; or a mapping. */
  datatype InfoFile = NoInfo | BadYaml | EmptyDoc | Loaded(data: Record)

  /** A parsed episode file: its front matter and body. */
  datatype Post = Post(metadata: Record, content: string)

  /** An `*.md` file of a manuscript directory; `parsed` is `None` when reading or parsing failed. */
  datatype EpisodeFile = EpisodeFile(name: string, parsed: Option<Post>)

  /** A `<book>/manuscript` directory, its files in directory-listing order. */
  datatype ManuscriptDir = ManuscriptDir(info: InfoFile, files: seq<EpisodeFile>)

  /** An entry of the data directory; `manuscript` is `None` when it has no `manuscript`
      sub-directory. */
  datatype BookEntry = BookEntry(name: string, isDir: bool, manuscript: Option<ManuscriptDir>)

  /** The entries both scripts look into: directories whose name does not start with a dot. */
  predicate IsBook(e: BookEntry)
  {
    e.isDir && !(|e.name| >= 1 && e.name[0] == '.')
  }

  /** One or more decimal digits and their value. */
  function DecimalDigits(u: string): Option<nat>
  {
    if u != [] && DigitPrefix(u, 10) == u then Some(DigitsValue(u, 10)) else None
  }

  /** An optional sign followed by decimal digits. */
  function SignedDecimal(t: string): Option<int>
  {
    var negative := t != [] && t[0] == '-';
    var u := if t != [] && (t[0] == '-' || t[0] == '+') then t[1..] else t;
    match DecimalDigits(u)
    case None => None
    case Some(v) => var w: int := v; Some(if negative then -w else w)
  }

  /** Python's `int(s)` on a string: surrounding white space, an optional sign, then one or more
      decimal digits; anything else raises `ValueError`, here `None`. */
  function IntOfString(s: string): Option<int>
  {
    SignedDecimal(StripPy(s))
  }

  /** Python's `int(v)`: integers unchanged, `True`/`False` as 1/0, strings parsed; `None`, dates
      and collections raise `TypeError`, here `None`. */
  function PyInt(v: Value): Option<int>
  {
    match v
    case Int(i) => Some(i)
    case Bool(b) => Some(if b then 1 else 0)
    case Str(s) => IntOfString(s)
    case _ => None
  }

  /** Stripping leaves a text whose ends are not blank unchanged, and removes padding around it. */
  lemma StripPadded(s: string)
    requires s != [] && !IsPySpace(s[0]) && !IsPySpace(s[|s| - 1])
    ensures StripPy(s) == s && StripPy(" " + s + "\n") == s
  {
    StripBare(s);
    var inner := s + ['\n'];
    assert " " + s + "\n" == [' '] + inner;
    TrimStartCons(' ', inner, IsPySpace);
    assert inner[0] == s[0];
    TrimStartBare(inner, IsPySpace);
    TrimEndSnoc(s, '\n', IsPySpace);
  }

  lemma StripBare(s: string)
    requires s != [] && !IsPySpace(s[0]) && !IsPySpace(s[|s| - 1])
    ensures StripPy(s) == s
  {
    TrimStartBare(s, IsPySpace);
    TrimEndBare(s, IsPySpace);
  }

  lemma DecimalDigitsShowNat(m: nat)
    ensures DecimalDigits(ShowNat(m)) == Some(m)
  {
    DigitPrefixOfDigits(ShowNat(m));
    DigitsValueShowNat(m);
  }

  lemma SignedDecimalShowInt(n: int)
    ensures SignedDecimal(ShowInt(n)) == Some(n)
  {
    var m: nat := if n < 0 then -n else n;
    DecimalDigitsShowNat(m);
    if n < 0 {
      assert ShowInt(n)[1..] == ShowNat(m);
    }
  }

  /** `int(str(n)) == n`: every integer survives a trip through its decimal text, with or
      without surrounding white space. */
  lemma PyIntOfDecimal(n: int)
    ensures PyInt(Str(ShowInt(n))) == Some(n)
    ensures PyInt(Str(" " + ShowInt(n) + "\n")) == Some(n)
  {
    var s := ShowInt(n);
    SignedDecimalShowInt(n);
    DecimalTextUnpadded(n);
    StripPadded(s);
    assert IntOfString(s) == Some(n);
    assert IntOfString(" " + s + "\n") == Some(n);
  }

  /** A decimal text neither starts nor ends with white space. */
  lemma DecimalTextUnpadded(n: int)
    ensures var s := ShowInt(n); s != [] && !IsPySpace(s[0]) && !IsPySpace(s[|s| - 1])
  {
  }

  /** A value that is not an integer, a boolean or a decimal text is refused by `int()`. */
  lemma PyIntRefuses()
    ensures PyInt(Null).None? && PyInt(Date(2025, 7, 12)).None? && PyInt(Collection([])).None?
    ensures PyInt(Str("")).None? && PyInt(Str("abc")).None? && PyInt(Str("-")).None?
  {
    EmptyRefused();
    WordRefused("abc");
    SignRefused('-');
  }

  lemma EmptyRefused()
    ensures IntOfString([]).None?
  {
    var t := TrimStart([], IsPySpace);
    assert t == [];
    assert TrimEnd(t, IsPySpace) == [];
  }

  /** A text that starts with neither a sign nor a decimal digit is refused. */
  lemma WordRefused(s: string)
    requires s != [] && !IsPySpace(s[0]) && !IsPySpace(s[|s| - 1])
    requires s[0] != '-' && s[0] != '+' && DigitValue(s[0]) >= 10
    ensures IntOfString(s).None?
  {
    StripBare(s);
    assert DigitPrefix(s, 10) == [];
    assert DecimalDigits(s).None?;
  }

  /** A sign without digits is refused. */
  lemma SignRefused(c: char)
    requires c == '-' || c == '+'
    ensures IntOfString([c]).None?
  {
    StripBare([c]);
    assert [c][1..] == [];
  }

  /** What Python's set membership compares: `True == 1` and `False == 0` hash alike. */
  datatype Key = IntKey(i: int) | StrKey(s: string) | NullKey | DateKey(year: int, month: int, day: int)

  /** The hash key of a value; collections are unhashable (`TypeError`), here `None`. */
  function KeyOf(v: Value): (k: Option<Key>)
    ensures k.None? <==> v.Collection?
  {
    match v
    case Int(i) => Some(IntKey(i))
    case Bool(b) => Some(IntKey(if b then 1 else 0))
    case Str(s) => Some(StrKey(s))
    case Null => Some(NullKey)
    case Date(y, m, d) => Some(DateKey(y, m, d))
    case Collection(_) => None
  }

  /** Two hashable values meet in a set exactly when Python's `==` holds between them. */
  predicate PyEquals(a: Value, b: Value)
  {
    match (a, b)
    case (Int(x), Int(y)) => x == y
    case (Bool(x), Bool(y)) => x == y
    case (Int(x), Bool(y)) => x == (if y then 1 else 0)
    case (Bool(x), Int(y)) => (if x then 1 else 0) == y
    case (Str(x), Str(y)) => x == y
    case (Null, Null) => true
    case (Date(y1, m1, d1), Date(y2, m2, d2)) => y1 == y2 && m1 == m2 && d1 == d2
    case (Collection(x), Collection(y)) => x == y
    case _ => false
  }

  lemma KeyOfIsEquality(a: Value, b: Value)
    requires !a.Collection? && !b.Collection?
    ensures KeyOf(a) == KeyOf(b) <==> PyEquals(a, b)
  {
  }

  // ---------------------------------------------------------------- file-name order

  /** Python's `<=` on strings: code-point order, a prefix first. */
  predicate NameLe(a: string, b: string)
  {
    if a == [] then true
    else if b == [] then false
    else if a[0] != b[0] then a[0] < b[0]
    else NameLe(a[1..], b[1..])
  }

  lemma {:induction false} NameLeTotal(a: string, b: string)
    ensures NameLe(a, b) || NameLe(b, a)
  {
    if a != [] && b != [] && a[0] == b[0] {
      NameLeTotal(a[1..], b[1..]);
    }
  }

  lemma {:induction false} NameLeTransitive(a: string, b: string, c: string)
    requires NameLe(a, b) && NameLe(b, c)
    ensures NameLe(a, c)
  {
    if a != [] && b != [] && c != [] && a[0] == b[0] && b[0] == c[0] {
      NameLeTransitive(a[1..], b[1..], c[1..]);
    }
  }

  predicate SortedByName(files: seq<EpisodeFile>)
  {
    forall k :: 0 <= k < |files| - 1 ==> NameLe(files[k].name, files[k + 1].name)
  }

  function InsertByName(f: EpisodeFile, sorted: seq<EpisodeFile>): (r: seq<EpisodeFile>)
    ensures |r| == |sorted| + 1 && (r[0] == f || (sorted != [] && r[0] == sorted[0]))
    ensures multiset(r) == multiset(sorted) + multiset{f}
  {
    if sorted == [] || NameLe(f.name, sorted[0].name) then [f] + sorted
    else
      var rest := InsertByName(f, sorted[1..]);
      assert sorted == [sorted[0]] + sorted[1..];
      [sorted[0]] + rest
  }

  lemma {:induction false} InsertByNameSorted(f: EpisodeFile, sorted: seq<EpisodeFile>)
    requires SortedByName(sorted)
    ensures SortedByName(InsertByName(f, sorted))
  {
    if sorted != [] && !NameLe(f.name, sorted[0].name) {
      InsertByNameSorted(f, sorted[1..]);
      NameLeTotal(f.name, sorted[0].name);
    }
  }

  /** `sorted(novel_path.glob("*.md"))`: the files ordered by name. */
  function SortByName(files: seq<EpisodeFile>): (r: seq<EpisodeFile>)
    ensures multiset(r) == multiset(files)
  {
    if files == [] then []
    else
      assert files == [files[0]] + files[1..];
      InsertByName(files[0], SortByName(files[1..]))
  }

  /** Sorting yields the same files, in name order. */
  lemma {:induction false} SortByNameSpec(files: seq<EpisodeFile>)
    ensures SortedByName(SortByName(files))
    ensures multiset(SortByName(files)) == multiset(files) && |SortByName(files)| == |files|
  {
    if files != [] {
      SortByNameSpec(files[1..]);
      InsertByNameSorted(files[0], SortByName(files[1..]));
    }
  }

  /** Name order between neighbours extends to any two positions. */
  lemma {:induction false} SortedPairwise(files: seq<EpisodeFile>, i: nat, j: nat)
    requires SortedByName(files) && i <= j < |files|
    ensures NameLe(files[i].name, files[j].name)
    decreases j - i
  {
    if i == j {
      NameLeTotal(files[i].name, files[i].name);
    } else {
      SortedPairwise(files, i + 1, j);
      NameLeTransitive(files[i].name, files[i + 1].name, files[j].name);
    }
  }
}
