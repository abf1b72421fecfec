/** The search box of the front end (frontend/src/components/SearchBox.tsx) and the part of the
    URL standard's `URLSearchParams` it relies on. The router push and the test callback are
    returned as an `Action` instead of being performed. */
module Search {
  import opened Wrappers
  import opened Seqs
  import opened Text

  /** One name-value pair of a query string. */
  type Pair = (string, string)

  /** `params.get(name)`: the value of the first pair with that name. */
  function Lookup(entries: seq<Pair>, name: string): Option<string>
  {
    if entries == [] then None
    else if entries[0].0 == name then Some(entries[0].1)
    else Lookup(entries[1..], name)
  }

  /** How many pairs carry the name. */
  function Occurrences(entries: seq<Pair>, name: string): nat
  {
    if entries == [] then 0
    else (if entries[0].0 == name then 1 else 0) + Occurrences(entries[1..], name)
  }

  predicate NamedOther(name: string, e: Pair) { e.0 != name }

  /** `params.delete(name)`: every pair with that name is removed. */
  function DeleteAll(entries: seq<Pair>, name: string): seq<Pair>
  {
    Filter(entries, (e: Pair) => NamedOther(name, e))
  }

  /** `params.set(name, value)`: the first pair with that name takes the value and the others
      with that name are removed; without one, the pair is appended. */
  function SetFirst(entries: seq<Pair>, name: string, value: string): seq<Pair>
  {
    if entries == [] then [(name, value)]
    else if entries[0].0 == name then [(name, value)] + DeleteAll(entries[1..], name)
    else [entries[0]] + SetFirst(entries[1..], name, value)
  }

  lemma {:induction false} DeleteAllSpec(entries: seq<Pair>, name: string, other: string)
    requires other != name
    ensures Lookup(DeleteAll(entries, name), name) == None
    ensures Occurrences(DeleteAll(entries, name), name) == 0
    ensures Lookup(DeleteAll(entries, name), other) == Lookup(entries, other)
    ensures Occurrences(DeleteAll(entries, name), other) == Occurrences(entries, other)
  {
    if entries != [] {
      DeleteAllSpec(entries[1..], name, other);
      DeleteAllStep(entries, name);
    }
  }

  /** One step of `DeleteAll`, as a statement about the first pair. */
  lemma DeleteAllStep(entries: seq<Pair>, name: string)
    requires entries != []
    ensures entries[0].0 == name ==> DeleteAll(entries, name) == DeleteAll(entries[1..], name)
    ensures entries[0].0 != name ==>
      && DeleteAll(entries, name) != []
      && DeleteAll(entries, name)[0] == entries[0]
      && DeleteAll(entries, name)[1..] == DeleteAll(entries[1..], name)
  {
    var rest := DeleteAll(entries[1..], name);
    if entries[0].0 != name {
      assert DeleteAll(entries, name) == [entries[0]] + rest;
      assert ([entries[0]] + rest)[1..] == rest;
    }
  }

  /** After `set`, the name occurs exactly once and reads back the value; the pairs with other
      names are the same, in the same order. */
  lemma {:induction false} SetFirstSpec(entries: seq<Pair>, name: string, value: string)
    ensures Lookup(SetFirst(entries, name, value), name) == Some(value)
    ensures Occurrences(SetFirst(entries, name, value), name) == 1
    ensures DeleteAll(SetFirst(entries, name, value), name) == DeleteAll(entries, name)
  {
    if entries != [] {
      if entries[0].0 == name {
        DeleteAllSpec(entries[1..], name, name + "?");
        DeleteTwice(entries[1..], name);
      } else {
        SetFirstSpec(entries[1..], name, value);
      }
    }
  }

  lemma {:induction false} DeleteTwice(entries: seq<Pair>, name: string)
    ensures DeleteAll(DeleteAll(entries, name), name) == DeleteAll(entries, name)
  {
    if entries != [] {
      DeleteTwice(entries[1..], name);
      DeleteAllStep(entries, name);
      if entries[0].0 != name {
        DeleteAllStep(DeleteAll(entries, name), name);
      }
    }
  }

  /** Other names keep their values under `set`. */
  lemma {:induction false} SetFirstKeepsOthers(entries: seq<Pair>, name: string, value: string, other: string)
    requires other != name
    ensures Lookup(SetFirst(entries, name, value), other) == Lookup(entries, other)
  {
    if entries != [] {
      if entries[0].0 == name {
        DeleteAllSpec(entries[1..], name, other);
      } else {
        SetFirstKeepsOthers(entries[1..], name, value, other);
      }
    }
  }

  /** Without the name, `set` appends. */
  lemma {:induction false} SetFirstAppends(entries: seq<Pair>, name: string, value: string)
    requires Occurrences(entries, name) == 0
    ensures SetFirst(entries, name, value) == entries + [(name, value)]
  {
    if entries != [] {
      SetFirstAppends(entries[1..], name, value);
      assert entries == [entries[0]] + entries[1..];
    }
  }

  /** `params.toString()`: the pairs as `name=value`, joined by `&`. The
      application/x-www-form-urlencoded byte serializer is the parameter `encode`. */
  function Serialize(entries: seq<Pair>, encode: string -> string): string
  {
    Join(Map(entries, (e: Pair) => encode(e.0) + "=" + encode(e.1)), '&')
  }

  /** The query string is empty exactly when no pair is left, whatever the encoding. */
  lemma SerializeEmptyIff(entries: seq<Pair>, encode: string -> string)
    ensures Serialize(entries, encode) == "" <==> entries == []
  {
    var parts := Map(entries, (e: Pair) => encode(e.0) + "=" + encode(e.1));
    if entries != [] {
      assert '=' in parts[0];
      assert Join(parts, '&')[..|parts[0]|] == parts[0];
    }
  }

  /** The address pushed after removing the search: the bare root when nothing is left. */
  function UrlFor(entries: seq<Pair>, encode: string -> string): string
  {
    var s := Serialize(entries, encode);
    if s != "" then "/?" + s else "/"
  }

  lemma UrlForRoot(entries: seq<Pair>, encode: string -> string)
    ensures UrlFor(entries, encode) == "/" <==> entries == []
  {
    SerializeEmptyIff(entries, encode);
  }

  /** A mutable `URLSearchParams` object. */
  class UrlSearchParams {
    var entries: seq<Pair>

    /** `new URLSearchParams(searchParams)`: a copy of the current pairs. */
    constructor (init: seq<Pair>)
      ensures entries == init
    {
      entries := init;
    }

    method Set(name: string, value: string)
      modifies this
      ensures entries == SetFirst(old(entries), name, value)
    {
      entries := SetFirst(entries, name, value);
    }

    method Delete(name: string)
      modifies this
      ensures entries == DeleteAll(old(entries), name)
    {
      entries := DeleteAll(entries, name);
    }

    function ToString(encode: string -> string): string
      reads this
    {
      Serialize(entries, encode)
    }
  }

  /** What a handler does after it runs: call the test callback, push an address, or nothing. */
  datatype Action = Callback(query: string) | Navigate(url: string) | Nothing

  /** The component: the edited text is its state; whether a callback was passed and the
      current address's pairs are fixed for its lifetime. */
  class SearchBox {
    var query: string
    const hasOnSearch: bool
    const searchParams: seq<Pair>

    /** `initialValue` defaults to the empty text. */
    constructor (initialValue: Option<string>, hasOnSearch: bool, searchParams: seq<Pair>)
      ensures query == initialValue.GetOr("")
      ensures ShowsClearButton() <==> initialValue.Some? && initialValue.value != ""
      ensures this.hasOnSearch == hasOnSearch && this.searchParams == searchParams
    {
      query := initialValue.GetOr("");
      this.hasOnSearch := hasOnSearch;
      this.searchParams := searchParams;
    }

    /** The clear button is shown while the text is non-empty. */
    predicate ShowsClearButton()
      reads this
    {
      query != ""
    }

    /** The input's `onChange`. */
    method Change(value: string)
      modifies this
      ensures query == value
      ensures ShowsClearButton() <==> value != ""
    {
      query := value;
    }

    /** Form submission. A non-blank text is handed, trimmed, to the callback, or written into
      the `search` parameter of the current address; a blank one removes that parameter, or
      does nothing when a callback is present. */
    method Submit(encode: string -> string) returns (action: Action)
      ensures var q := TrimJs(query);
        && (q != "" && hasOnSearch ==> action == Callback(q))
        && (q != "" && !hasOnSearch ==> action == Navigate("/?" + Serialize(SetFirst(searchParams, "search", q), encode)))
        && (q == "" && hasOnSearch ==> action == Nothing)
        && (q == "" && !hasOnSearch ==> action == Navigate(UrlFor(DeleteAll(searchParams, "search"), encode)))
      ensures action.Callback? ==>
        && action.query != ""
        && !IsJsSpace(action.query[0])
        && !IsJsSpace(action.query[|action.query| - 1])
    {
      var trimmed := TrimJs(query);
      StripEnds(query, IsJsSpace);
      if trimmed != "" {
        if hasOnSearch {
          action := Callback(trimmed);
        } else {
          var url := SearchUrl(searchParams, trimmed, encode);
          action := Navigate(url);
        }
      } else if !hasOnSearch {
        var url := ClearedUrl(searchParams, encode);
        action := Navigate(url);
      } else {
        action := Nothing;
      }
    }

    /** The clear button: empties the text and removes the `search` parameter, callback or not. */
    method Clear(encode: string -> string) returns (action: Action)
      modifies this
      ensures query == ""
      ensures !ShowsClearButton()
      ensures action == Navigate(UrlFor(DeleteAll(searchParams, "search"), encode))
    {
      query := "";
      var url := ClearedUrl(searchParams, encode);
      action := Navigate(url);
    }
  }

  /** The address a non-blank search is pushed to: a copy of the current pairs with `search` set. */
  method SearchUrl(searchParams: seq<Pair>, q: string, encode: string -> string) returns (url: string)
    ensures url == "/?" + Serialize(SetFirst(searchParams, "search", q), encode)
  {
    var params := new UrlSearchParams(searchParams);
    params.Set("search", q);
    url := "/?" + params.ToString(encode);
  }

  /** The address pushed when the search is removed: a copy of the current pairs without
      `search`, or the bare root when nothing is left. */
  method ClearedUrl(searchParams: seq<Pair>, encode: string -> string) returns (url: string)
    ensures url == UrlFor(DeleteAll(searchParams, "search"), encode)
  {
    var params := new UrlSearchParams(searchParams);
    params.Delete("search");
    var s := params.ToString(encode);
    url := if s != "" then "/?" + s else "/";
  }

  /** The address written on submission carries the trimmed text as its only `search` value and
      keeps every other parameter. */
  lemma SubmittedAddress(searchParams: seq<Pair>, q: string, other: string)
    requires other != "search"
    ensures var next := SetFirst(searchParams, "search", q);
      && Lookup(next, "search") == Some(q)
      && Occurrences(next, "search") == 1
      && Lookup(next, other) == Lookup(searchParams, other)
  {
    SetFirstSpec(searchParams, "search", q);
    SetFirstKeepsOthers(searchParams, "search", q, other);
  }

  /** Clearing leaves no `search` value, keeps the rest, and lands on the root exactly when the
      search was the only parameter. */
  lemma ClearedAddress(searchParams: seq<Pair>, other: string, encode: string -> string)
    requires other != "search"
    ensures var next := DeleteAll(searchParams, "search");
      && Lookup(next, "search") == None
      && Lookup(next, other) == Lookup(searchParams, other)
      && (UrlFor(next, encode) == "/" <==> Occurrences(searchParams, "search") == |searchParams|)
  {
    DeleteAllSpec(searchParams, "search", other);
    UrlForRoot(DeleteAll(searchParams, "search"), encode);
    DeleteAllEmptyIff(searchParams, "search");
  }

  lemma {:induction false} DeleteAllEmptyIff(entries: seq<Pair>, name: string)
    ensures DeleteAll(entries, name) == [] <==> Occurrences(entries, name) == |entries|
  {
    if entries != [] {
      DeleteAllEmptyIff(entries[1..], name);
      OccurrencesBound(entries[1..], name);
    }
  }

  lemma {:induction false} OccurrencesBound(entries: seq<Pair>, name: string)
    ensures Occurrences(entries, name) <= |entries|
  {
    if entries != [] {
      OccurrencesBound(entries[1..], name);
    }
  }

  /** Searching for the text already in the address changes nothing once the duplicates are gone. */
  lemma {:induction false} SetFirstIdempotent(entries: seq<Pair>, name: string, value: string)
    ensures SetFirst(SetFirst(entries, name, value), name, value) == SetFirst(entries, name, value)
  {
    if entries != [] {
      if entries[0].0 == name {
        DeleteTwice(entries[1..], name);
      } else {
        SetFirstIdempotent(entries[1..], name, value);
      }
    }
  }
}
