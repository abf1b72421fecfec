/** String primitives the source takes from its language runtimes, defined here so that the
    properties the other modules need can be proved: `includes`, `toLowerCase` (ASCII letters),
    `trim`/`strip`, `split` on one character, decimal rendering of integers, and `parseInt`. */
module Text {
  import opened Wrappers

  /** `hay.includes(needle)` / `needle in hay`: `needle` occurs in `hay` as a contiguous block. */
  predicate Includes(hay: string, needle: string)
    decreases |hay|
  {
    needle <= hay || (hay != [] && Includes(hay[1..], needle))
  }

  /** `Includes` holds exactly when the needle sits at some offset of the haystack. */
  lemma {:induction false} IncludesAt(hay: string, needle: string, i: nat)
    requires i + |needle| <= |hay| && hay[i..i + |needle|] == needle
    ensures Includes(hay, needle)
    decreases i
  {
    if i > 0 {
      assert hay[1..][i - 1..i - 1 + |needle|] == needle;
      IncludesAt(hay[1..], needle, i - 1);
    }
  }

  lemma {:induction false} IncludesGivesOffset(hay: string, needle: string) returns (i: nat)
    requires Includes(hay, needle)
    ensures i + |needle| <= |hay| && hay[i..i + |needle|] == needle
    decreases |hay|
  {
    if needle <= hay {
      i := 0;
    } else {
      var j := IncludesGivesOffset(hay[1..], needle);
      assert hay[1..][j..j + |needle|] == hay[j + 1..j + 1 + |needle|];
      i := j + 1;
    }
  }

  /** The case mapping of `toLowerCase` on ASCII letters; every other character is kept. */
  function LowerChar(c: char): (d: char)
    ensures 'A' <= c <= 'Z' ==> d as int == c as int + 32
    ensures !('A' <= c <= 'Z') ==> d == c
  {
    if 'A' <= c <= 'Z' then (c as int + 32) as char else c
  }

  function Lower(s: string): (r: string)
    ensures |r| == |s| && forall k :: 0 <= k < |s| ==> r[k] == LowerChar(s[k])
  {
    seq(|s|, k requires 0 <= k < |s| => LowerChar(s[k]))
  }

  /** Lower-casing twice is lower-casing once. */
  lemma LowerIdempotent(s: string)
    ensures Lower(Lower(s)) == Lower(s)
  {
  }

  /** The case-insensitive substring test the source writes as
      `a.toLowerCase().includes(b.toLowerCase())`. */
  predicate IncludesIgnoringCase(hay: string, needle: string) {
    Includes(Lower(hay), Lower(needle))
  }

  /** The characters ECMAScript's `trim` and `parseInt` skip: WhiteSpace and LineTerminator. */
  predicate IsJsSpace(c: char) {
    c == '\t' || c == '\n' || c == '\U{0B}' || c == '\U{0C}' || c == '\r' || c == ' ' ||
    c == '\U{A0}' || c == '\U{1680}' || ('\U{2000}' <= c <= '\U{200A}') ||
    c == '\U{2028}' || c == '\U{2029}' || c == '\U{202F}' || c == '\U{205F}' ||
    c == '\U{3000}' || c == '\U{FEFF}'
  }

  /** The characters Python's `str.strip()` removes (those for which `str.isspace()` holds). */
  predicate IsPySpace(c: char) {
    ('\t' <= c <= '\r') || ('\U{1C}' <= c <= '\U{1F}') || c == ' ' || c == '\U{85}' ||
    c == '\U{A0}' || c == '\U{1680}' || ('\U{2000}' <= c <= '\U{200A}') ||
    c == '\U{2028}' || c == '\U{2029}' || c == '\U{202F}' || c == '\U{205F}' || c == '\U{3000}'
  }

  /** Drops the leading characters for which `ws` holds. */
  function TrimStart(s: string, ws: char -> bool): (r: string)
    ensures |r| <= |s| && r == s[|s| - |r|..]
    ensures r == [] || !ws(r[0])
    ensures forall k :: 0 <= k < |s| - |r| ==> ws(s[k])
  {
    if s != [] && ws(s[0]) then TrimStart(s[1..], ws) else s
  }

  /** Drops the trailing characters for which `ws` holds. */
  function TrimEnd(s: string, ws: char -> bool): (r: string)
    ensures |r| <= |s| && r == s[..|r|]
    ensures r == [] || !ws(r[|r| - 1])
    ensures forall k :: |r| <= k < |s| ==> ws(s[k])
  {
    if s != [] && ws(s[|s| - 1]) then TrimEnd(s[..|s| - 1], ws) else s
  }

  /** Both ends stripped. */
  function Strip(s: string, ws: char -> bool): string {
    TrimEnd(TrimStart(s, ws), ws)
  }

  /** JavaScript's `s.trim()`. */
  function TrimJs(s: string): string { Strip(s, IsJsSpace) }

  /** Python's `s.strip()`. */
  function StripPy(s: string): string { Strip(s, IsPySpace) }

  /** A blank first character is dropped, and a text starting with a non-blank one is kept. */
  lemma TrimStartCons(c: char, t: string, ws: char -> bool)
    requires ws(c)
    ensures TrimStart([c] + t, ws) == TrimStart(t, ws)
  {
    assert ([c] + t)[1..] == t;
  }

  lemma TrimStartBare(t: string, ws: char -> bool)
    requires t != [] && !ws(t[0])
    ensures TrimStart(t, ws) == t
  {
  }

  /** A blank last character is dropped, and a text ending with a non-blank one is kept. */
  lemma TrimEndSnoc(t: string, c: char, ws: char -> bool)
    requires ws(c)
    ensures TrimEnd(t + [c], ws) == TrimEnd(t, ws)
  {
    assert (t + [c])[..|t|] == t;
  }

  lemma TrimEndBare(t: string, ws: char -> bool)
    requires t != [] && !ws(t[|t| - 1])
    ensures TrimEnd(t, ws) == t
  {
  }

  /** A non-empty stripped text starts and ends with a character that is not blank. */
  lemma StripEnds(s: string, ws: char -> bool)
    ensures var r := Strip(s, ws); r == [] || (!ws(r[0]) && !ws(r[|r| - 1]))
  {
    var t := TrimStart(s, ws);
    var r := TrimEnd(t, ws);
    if r != [] {
      assert r[0] == t[0];
    }
  }

  /** Stripping leaves nothing exactly when every character is blank. */
  lemma StripEmptyIff(s: string, ws: char -> bool)
    ensures Strip(s, ws) == "" <==> forall k :: 0 <= k < |s| ==> ws(s[k])
  {
  }

  /** `s.split(sep)` for a one-character separator: the pieces between separators, at least one. */
  function Split(s: string, sep: char): (r: seq<string>)
    ensures |r| >= 1
    ensures forall k :: 0 <= k < |r| ==> sep !in r[k]
  {
    if s == [] then [""]
    else if s[0] == sep then [""] + Split(s[1..], sep)
    else
      var rest := Split(s[1..], sep);
      [[s[0]] + rest[0]] + rest[1..]
  }

  /** `parts.join(sep)`. */
  function Join(parts: seq<string>, sep: char): string
  {
    if |parts| == 0 then ""
    else if |parts| == 1 then parts[0]
    else parts[0] + [sep] + Join(parts[1..], sep)
  }

  /** Splitting loses nothing: joining the pieces with the separator gives the string back. */
  lemma {:induction false} JoinSplit(s: string, sep: char)
    ensures Join(Split(s, sep), sep) == s
  {
    if s != [] {
      JoinSplit(s[1..], sep);
      var rest := Split(s[1..], sep);
      if s[0] == sep {
        assert Split(s, sep)[1..] == rest;
      } else {
        var r := Split(s, sep);
        if |rest| == 1 {
        } else {
          assert r[1..] == rest[1..];
        }
      }
    }
  }

  /** Conversely, pieces free of the separator come back from splitting their join. */
  lemma {:induction false} SplitJoin(parts: seq<string>, sep: char)
    requires |parts| >= 1 && forall k :: 0 <= k < |parts| ==> sep !in parts[k]
    ensures Split(Join(parts, sep), sep) == parts
    decreases |parts|, |parts[0]|
  {
    if |parts[0]| > 0 {
      var p0 := parts[0];
      var shorter := [p0[1..]] + parts[1..];
      assert shorter[1..] == parts[1..];
      SplitJoin(shorter, sep);
      JoinConsChar(parts, sep);
      SplitCons(p0[0], Join(shorter, sep), sep, shorter);
      assert [p0[0]] + p0[1..] == p0;
    } else if |parts| > 1 {
      SplitJoin(parts[1..], sep);
      assert Join(parts, sep) == [sep] + Join(parts[1..], sep);
    }
  }

  /** A join whose first piece is not empty starts with that piece's first character. */
  lemma JoinConsChar(parts: seq<string>, sep: char)
    requires |parts| >= 1 && |parts[0]| > 0
    ensures Join(parts, sep) == [parts[0][0]] + Join([parts[0][1..]] + parts[1..], sep)
  {
    var p0 := parts[0];
    var shorter := [p0[1..]] + parts[1..];
    assert shorter[1..] == parts[1..];
    if |parts| > 1 {
      assert Join(parts, sep) == [p0[0]] + (p0[1..] + [sep] + Join(parts[1..], sep));
    }
  }

  /** A character other than the separator joins the first piece. */
  lemma SplitCons(c: char, t: string, sep: char, pieces: seq<string>)
    requires c != sep && Split(t, sep) == pieces
    ensures Split([c] + t, sep) == [[c] + pieces[0]] + pieces[1..]
  {
    assert ([c] + t)[1..] == t;
  }

  /** A separator-free string is a single piece. */
  lemma {:induction false} SplitWithoutSeparator(s: string, sep: char)
    requires sep !in s
    ensures Split(s, sep) == [s]
  {
    if s != [] {
      SplitWithoutSeparator(s[1..], sep);
      assert [s[0]] + s[1..] == s;
    }
  }

  /** There is more than one piece exactly when the separator occurs. */
  lemma {:induction false} SplitSinglePieceIff(s: string, sep: char)
    ensures |Split(s, sep)| == 1 <==> sep !in s
  {
    if s != [] {
      SplitSinglePieceIff(s[1..], sep);
    }
  }

  /** A separator-free first word is the first piece; the rest is split on its own. */
  lemma {:induction false} SplitAfterWord(w: string, sep: char, rest: string)
    requires sep !in w
    ensures Split(w + [sep] + rest, sep) == [w] + Split(rest, sep)
  {
    if w != [] {
      SplitAfterWord(w[1..], sep, rest);
      var whole := w + [sep] + rest;
      assert whole[0] == w[0] && whole[1..] == w[1..] + [sep] + rest;
      assert [w[0]] + w[1..] == w;
    } else {
      assert (w + [sep] + rest)[1..] == rest;
    }
  }

  /** The parts before and after the first occurrence of `c`, if there is one. */
  function SplitAtFirst(s: string, c: char): (r: Option<(string, string)>)
    ensures r.None? <==> c !in s
    ensures r.Some? ==> c !in r.value.0 && s == r.value.0 + [c] + r.value.1
  {
    if s == [] then None
    else if s[0] == c then Some(([], s[1..]))
    else match SplitAtFirst(s[1..], c)
      case None => None
      case Some((before, after)) => Some(([s[0]] + before, after))
  }

  /** Splitting at the first separator recovers the part before it and the rest. */
  lemma {:induction false} SplitAtFirstOf(a: string, c: char, b: string)
    requires c !in a
    ensures SplitAtFirst(a + [c] + b, c) == Some((a, b))
  {
    if a != [] {
      assert (a + [c] + b)[1..] == a[1..] + [c] + b;
      SplitAtFirstOf(a[1..], c, b);
      assert [a[0]] + a[1..] == a;
    } else {
      assert a + [c] + b == [c] + b;
    }
  }

  /** The element at an index, or `undefined` past the end (`xs[i]` in JavaScript). */
  function At<T>(xs: seq<T>, i: nat): (r: Option<T>)
    ensures r.Some? <==> i < |xs|
    ensures r.Some? ==> r.value == xs[i]
  {
    if i < |xs| then Some(xs[i]) else None
  }

  predicate IsDecDigit(c: char) { '0' <= c <= '9' }

  function DigitChar(d: nat): (c: char)
    requires d < 10
    ensures IsDecDigit(c) && c as int - '0' as int == d
  {
    ('0' as int + d) as char
  }

  /** The decimal digits of a natural number, without leading zeros: `String(n)` / `str(n)`. */
  function ShowNat(n: nat): (r: string)
    ensures |r| >= 1 && forall k :: 0 <= k < |r| ==> IsDecDigit(r[k])
    ensures r[0] == '0' ==> n == 0 && r == "0"
  {
    if n < 10 then [DigitChar(n)] else ShowNat(n / 10) + [DigitChar(n % 10)]
  }

  /** `${n}` for an integer-valued JavaScript number, and Python's `str(n)`. */
  function ShowInt(n: int): (r: string)
    ensures |r| >= 1 && (IsDecDigit(r[0]) || r[0] == '-')
    ensures forall k :: 1 <= k < |r| ==> IsDecDigit(r[k])
  {
    if n < 0 then "-" + ShowNat(-n) else ShowNat(n)
  }

  /** The value of a character as a digit in radix up to 36 (36 for a non-digit). */
  function DigitValue(c: char): (v: nat)
    ensures v <= 36
    ensures IsDecDigit(c) ==> v == c as int - '0' as int
    ensures v < 10 ==> IsDecDigit(c)
  {
    if '0' <= c <= '9' then c as int - '0' as int
    else if 'a' <= c <= 'z' then c as int - 'a' as int + 10
    else if 'A' <= c <= 'Z' then c as int - 'A' as int + 10
    else 36
  }

  /** The value of a string of digits in the given radix, most significant first. */
  function DigitsValue(s: string, radix: nat): nat
  {
    if s == [] then 0
    else DigitsValue(s[..|s| - 1], radix) * radix + DigitValue(s[|s| - 1])
  }

  /** The longest prefix of `s` made of digits of the radix. */
  function DigitPrefix(s: string, radix: nat): (r: string)
    ensures r <= s && forall k :: 0 <= k < |r| ==> DigitValue(r[k]) < radix
    ensures |r| < |s| ==> DigitValue(s[|r|]) >= radix
  {
    if s != [] && DigitValue(s[0]) < radix then [s[0]] + DigitPrefix(s[1..], radix) else []
  }

  lemma {:induction false} DigitsValueShowNat(n: nat)
    ensures DigitsValue(ShowNat(n), 10) == n
  {
    if n >= 10 {
      var r := ShowNat(n);
      assert r[..|r| - 1] == ShowNat(n / 10);
      DigitsValueShowNat(n / 10);
    }
  }

  lemma {:induction false} DigitPrefixOfDigits(s: string)
    requires forall k :: 0 <= k < |s| ==> IsDecDigit(s[k])
    ensures DigitPrefix(s, 10) == s
  {
    if s != [] {
      DigitPrefixOfDigits(s[1..]);
    }
  }

  /** The unsigned part of `parseInt`: radix 16 after `0x`/`0X`, otherwise radix 10, then the
      longest run of digits of that radix; no digit at all gives `NaN`. */
  function ParseUnsigned(u: string): Option<nat>
  {
    var hex := |u| >= 2 && u[0] == '0' && (u[1] == 'x' || u[1] == 'X');
    var radix := if hex then 16 else 10;
    var z := DigitPrefix(if hex then u[2..] else u, radix);
    if z == [] then None else Some(DigitsValue(z, radix))
  }

  /** ECMAScript's `parseInt(s)` without a radix, `None` standing for `NaN`: skip leading white
      space, take an optional sign, then read the unsigned part. */
  function ParseInt(s: string): (r: Option<int>)
  {
    ParseSigned(TrimStart(s, IsJsSpace))
  }

  /** An optional sign, then the unsigned part. */
  function ParseSigned(t: string): Option<int>
  {
    var negative := t != [] && t[0] == '-';
    var u := if t != [] && (t[0] == '-' || t[0] == '+') then t[1..] else t;
    match ParseUnsigned(u)
    case None => None
    case Some(v) => var w: int := v; Some(if negative then -w else w)
  }

  lemma ParseUnsignedShowNat(m: nat)
    ensures ParseUnsigned(ShowNat(m)) == Some(m)
  {
    var u := ShowNat(m);
    assert !(|u| >= 2 && u[0] == '0');
    DigitPrefixOfDigits(u);
    DigitsValueShowNat(m);
  }

  /** `parseInt(String(n)) === n` for every integer: rendering and parsing are inverse. */
  lemma ParseIntShowInt(n: int)
    ensures ParseInt(ShowInt(n)) == Some(n)
  {
    var m: nat := if n < 0 then -n else n;
    var u := ShowNat(m);
    ParseUnsignedShowNat(m);
    assert IsDecDigit(u[0]);
    if n < 0 {
      ParseIntNegative(u, m);
    } else {
      ParseIntDigits(u, m);
    }
  }

  lemma ParseIntDigits(u: string, m: nat)
    requires u != [] && IsDecDigit(u[0]) && ParseUnsigned(u) == Some(m)
    ensures ParseInt(u) == Some(m)
  {
    DigitNotBlank(u[0]);
    TrimStartBare(u, IsJsSpace);
  }

  lemma ParseIntNegative(u: string, m: nat)
    requires ParseUnsigned(u) == Some(m)
    ensures ParseInt("-" + u) == Some(-(m as int))
  {
    var s := "-" + u;
    SignNotBlank(s[0]);
    TrimStartBare(s, IsJsSpace);
    ParseSignedNegative(u, m);
  }

  lemma ParseSignedNegative(u: string, m: nat)
    requires ParseUnsigned(u) == Some(m)
    ensures ParseSigned("-" + u) == Some(-(m as int))
  {
    assert ("-" + u)[1..] == u;
  }

  /** A decimal digit is neither white space nor a sign. */
  lemma DigitNotBlank(c: char)
    requires IsDecDigit(c)
    ensures !IsJsSpace(c) && !IsPySpace(c) && c != '-' && c != '+'
  {
  }

  /** A sign is not white space. */
  lemma SignNotBlank(c: char)
    requires c == '-' || c == '+'
    ensures !IsJsSpace(c) && !IsPySpace(c)
  {
  }

  /** Different integers render differently. */
  lemma ShowIntInjective(a: int, b: int)
    requires ShowInt(a) == ShowInt(b)
    ensures a == b
  {
    ParseIntShowInt(a);
    ParseIntShowInt(b);
  }
}
