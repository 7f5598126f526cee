/**
 * The Python `str` and `os.path` operations the README generator uses,
 * over `string` (a sequence of Unicode scalar values, as a Python `str` is a
 * sequence of code points). Each is stated by what it promises, not by the
 * library's internals: case mapping is ASCII-only, and joins and splits of
 * paths follow the POSIX flavour of `os.path`.
 */
module PyStr {

  /** `s.startswith(prefix)` */
  predicate StartsWith(s: string, prefix: string)
  {
    |prefix| <= |s| && s[..|prefix|] == prefix
  }

  /** `s.endswith(suffix)` */
  predicate EndsWith(s: string, suffix: string)
  {
    |suffix| <= |s| && s[|s| - |suffix|..] == suffix
  }

  /** `s.endswith(tuple(suffixes))`: true iff some suffix matches (never for an empty tuple). */
  predicate EndsWithAny(s: string, suffixes: seq<string>)
  {
    exists k :: 0 <= k < |suffixes| && EndsWith(s, suffixes[k])
  }

  /** Number of occurrences of `c` in `s`. */
  function Occurrences(s: string, c: char): nat
  {
    if s == [] then 0 else (if s[0] == c then 1 else 0) + Occurrences(s[1..], c)
  }

  /** `s.replace(target, replacement)` for a one-character `target`. */
  function ReplaceChar(s: string, target: char, replacement: string): (r: string)
    ensures target !in replacement ==> target !in r
    ensures target !in s ==> r == s
    ensures |replacement| == 1 ==> |r| == |s|
    ensures |replacement| == 1 ==>
      forall i :: 0 <= i < |s| ==> |r| == |s| && r[i] == if s[i] == target then replacement[0] else s[i]
  {
    if s == [] then []
    else (if s[0] == target then replacement else [s[0]]) + ReplaceChar(s[1..], target, replacement)
  }

  /**
   * Python's identity for `replace`: the pieces between the occurrences of
   * the target, joined by the replacement, for a replacement of any length.
   */
  lemma {:induction false} ReplaceSplitJoin(s: string, target: char, replacement: string)
    ensures ReplaceChar(s, target, replacement) == Join(Split(s, target), replacement)
  {
    if s != [] {
      var rest := ReplaceChar(s[1..], target, replacement);
      var pieces := Split(s[1..], target);
      ReplaceSplitJoin(s[1..], target, replacement);
      assert rest == Join(pieces, replacement);
      if s[0] == target {
        assert Split(s, target) == [""] + pieces;
        assert ReplaceChar(s, target, replacement) == replacement + rest;
        JoinCons("", pieces, replacement);
        assert "" + replacement == replacement;
      } else {
        assert Split(s, target) == [[s[0]] + pieces[0]] + pieces[1..];
        assert ReplaceChar(s, target, replacement) == [s[0]] + rest;
        JoinExtendHead([s[0]], pieces, replacement);
      }
    }
  }

  /** `s.lstrip(chars)`: drops the longest prefix made only of characters in `chars`. */
  function LStrip(s: string, chars: set<char>): (r: string)
    ensures |r| <= |s| && r == s[|s| - |r|..]
    ensures forall i :: 0 <= i < |s| - |r| ==> s[i] in chars
    ensures r == [] || r[0] !in chars
  {
    if s != [] && s[0] in chars then LStrip(s[1..], chars) else s
  }

  /** `sep.join(parts)` */
  function Join(parts: seq<string>, sep: string): string
  {
    if |parts| == 0 then ""
    else if |parts| == 1 then parts[0]
    else parts[0] + sep + Join(parts[1..], sep)
  }

  /** `s.split(sep)` for a one-character separator: never empty, `"".split("/") == [""]`. */
  function Split(s: string, sep: char): (parts: seq<string>)
    ensures |parts| == Occurrences(s, sep) + 1
    ensures forall i :: 0 <= i < |parts| ==> sep !in parts[i]
    ensures Join(parts, [sep]) == s
  {
    if s == [] then [""]
    else
      var rest := Split(s[1..], sep);
      if s[0] == sep then [""] + rest
      else [[s[0]] + rest[0]] + rest[1..]
  }

  /** The first piece of a split begins with the string's first character, unless that is the separator. */
  lemma SplitHead(s: string, sep: char)
    requires s != []
    ensures s[0] != sep <==> Split(s, sep)[0] != ""
    ensures s[0] != sep ==> Split(s, sep)[0][0] == s[0]
  {
  }

  /** A character absent from the string is absent from every piece. */
  lemma {:induction false} SplitPiecesWithout(s: string, sep: char, c: char)
    requires c !in s
    ensures forall i :: 0 <= i < |Split(s, sep)| ==> c !in Split(s, sep)[i]
  {
    if s != [] {
      SplitPiecesWithout(s[1..], sep, c);
    }
  }

  lemma JoinAppend(parts: seq<string>, last: string, sep: string)
    ensures Join(parts + [last], sep) == if parts == [] then last else Join(parts, sep) + sep + last
  {
    if |parts| > 1 {
      assert (parts + [last])[1..] == parts[1..] + [last];
      JoinAppend(parts[1..], last, sep);
    } else if |parts| == 1 {
      assert (parts + [last])[1..] == [last];
    }
  }

  /** Joining a piece in front of non-empty pieces puts one separator between them. */
  lemma JoinCons(p: string, parts: seq<string>, sep: string)
    requires parts != []
    ensures Join([p] + parts, sep) == p + sep + Join(parts, sep)
  {
    assert ([p] + parts)[1..] == parts;
  }

  /** Extending the first piece extends the joined string by the same prefix. */
  lemma JoinExtendHead(c: string, parts: seq<string>, sep: string)
    requires parts != []
    ensures Join([c + parts[0]] + parts[1..], sep) == c + Join(parts, sep)
  {
    var ps := [c + parts[0]] + parts[1..];
    if |parts| > 1 {
      assert ps[1..] == parts[1..];
      assert Join(ps, sep) == (c + parts[0]) + sep + Join(parts[1..], sep);
    }
  }

  lemma JoinStartsWith(parts: seq<string>, sep: string)
    requires parts != []
    ensures StartsWith(Join(parts, sep), parts[0])
  {
    if |parts| > 1 {
      assert Join(parts, sep) == parts[0] + (sep + Join(parts[1..], sep));
    }
  }

  lemma {:induction false} JoinConcat(a: seq<string>, b: seq<string>, sep: string)
    requires a != [] && b != []
    ensures Join(a + b, sep) == Join(a, sep) + sep + Join(b, sep)
  {
    if |a| == 1 {
      assert (a + b)[1..] == b;
    } else {
      assert (a + b)[1..] == a[1..] + b;
      JoinConcat(a[1..], b, sep);
    }
  }

  lemma SplitNoSep(s: string, sep: char)
    requires sep !in s
    ensures Split(s, sep) == [s]
  {
    if s != [] {
      SplitNoSep(s[1..], sep);
    }
  }

  lemma {:induction false} SplitAtSep(a: string, b: string, sep: char)
    requires sep !in a
    ensures Split(a + [sep] + b, sep) == [a] + Split(b, sep)
  {
    var s := a + [sep] + b;
    if a == [] {
      assert s[0] == sep && s[1..] == b;
    } else {
      assert s[0] == a[0] && s[1..] == a[1..] + [sep] + b;
      SplitAtSep(a[1..], b, sep);
      var rest := Split(s[1..], sep);
      assert rest == [a[1..]] + Split(b, sep);
      assert Split(s, sep) == [[a[0]] + rest[0]] + rest[1..];
      assert [a[0]] + a[1..] == a;
      assert rest[1..] == Split(b, sep);
    }
  }

  /** Splitting undoes joining, for pieces that do not contain the separator. */
  lemma {:induction false} SplitJoin(parts: seq<string>, sep: char)
    requires parts != []
    requires forall i :: 0 <= i < |parts| ==> sep !in parts[i]
    ensures Split(Join(parts, [sep]), sep) == parts
  {
    if |parts| == 1 {
      SplitNoSep(parts[0], sep);
    } else {
      SplitJoin(parts[1..], sep);
      assert Join(parts, [sep]) == parts[0] + [sep] + Join(parts[1..], [sep]);
      SplitAtSep(parts[0], Join(parts[1..], [sep]), sep);
      assert parts == [parts[0]] + parts[1..];
    }
  }

  /** Python string comparison `a <= b`: lexicographic by code point, a prefix first. */
  predicate Le(a: string, b: string)
  {
    a == [] || (b != [] && (a[0] < b[0] || (a[0] == b[0] && Le(a[1..], b[1..]))))
  }

  lemma {:induction false} LeReflexive(a: string)
    ensures Le(a, a)
  {
    if a != [] { LeReflexive(a[1..]); }
  }

  lemma {:induction false} LeTotal(a: string, b: string)
    ensures Le(a, b) || Le(b, a)
  {
    if a != [] && b != [] && a[0] == b[0] { LeTotal(a[1..], b[1..]); }
  }

  lemma {:induction false} LeAntisymmetric(a: string, b: string)
    requires Le(a, b) && Le(b, a)
    ensures a == b
  {
    if a != [] && b != [] {
      LeAntisymmetric(a[1..], b[1..]);
      assert a == [a[0]] + a[1..] && b == [b[0]] + b[1..];
    }
  }

  lemma {:induction false} LeTransitive(a: string, b: string, c: string)
    requires Le(a, b) && Le(b, c)
    ensures Le(a, c)
  {
    if a != [] && b != [] && c != [] && a[0] == b[0] == c[0] {
      LeTransitive(a[1..], b[1..], c[1..]);
    }
  }

  predicate IsAsciiLower(c: char) { 'a' <= c <= 'z' }
  predicate IsAsciiUpper(c: char) { 'A' <= c <= 'Z' }
  /** A cased character; every character outside ASCII is treated as uncased. */
  predicate IsCased(c: char) { IsAsciiLower(c) || IsAsciiUpper(c) }

  function ToUpper(c: char): (u: char)
    ensures IsCased(c) ==> IsAsciiUpper(u)
  {
    if IsAsciiLower(c) then (c as int - 32) as char else c
  }

  function ToLower(c: char): (l: char)
    ensures IsCased(c) ==> IsAsciiLower(l)
  {
    if IsAsciiUpper(c) then (c as int + 32) as char else c
  }

  /** The character `str.title()` puts at a position, given whether the previous character is cased. */
  function TitleChar(c: char, previousCased: bool): char
  {
    if previousCased then ToLower(c) else ToUpper(c)
  }

  function TitleFrom(s: string, previousCased: bool): (r: string)
    ensures |r| == |s|
  {
    if s == [] then []
    else [TitleChar(s[0], previousCased)] + TitleFrom(s[1..], IsCased(s[0]))
  }

  /** `s.title()`: a cased character is upper-cased at the start of a word and lower-cased inside one. */
  function Title(s: string): (r: string)
    ensures |r| == |s|
  {
    TitleFrom(s, false)
  }

  lemma {:induction false} TitleFromAt(s: string, previousCased: bool, i: nat)
    requires i < |s|
    ensures TitleFrom(s, previousCased)[i] == TitleChar(s[i], if i == 0 then previousCased else IsCased(s[i - 1]))
  {
    if i > 0 {
      TitleFromAt(s[1..], IsCased(s[0]), i - 1);
    }
  }

  /** Position by position: letters that begin a word become upper case, the rest lower case, other characters stay. */
  lemma TitleAt(s: string, i: nat)
    requires i < |s|
    ensures IsCased(s[i]) && (i == 0 || !IsCased(s[i - 1])) ==> Title(s)[i] == ToUpper(s[i]) && IsAsciiUpper(Title(s)[i])
    ensures IsCased(s[i]) && i > 0 && IsCased(s[i - 1]) ==> Title(s)[i] == ToLower(s[i]) && IsAsciiLower(Title(s)[i])
    ensures !IsCased(s[i]) ==> Title(s)[i] == s[i]
  {
    TitleFromAt(s, false, i);
  }

  lemma {:induction false} TitleFromIdempotent(s: string, previousCased: bool)
    ensures TitleFrom(TitleFrom(s, previousCased), previousCased) == TitleFrom(s, previousCased)
  {
    if s != [] {
      var t := TitleFrom(s, previousCased);
      assert t[0] == TitleChar(s[0], previousCased);
      assert IsCased(t[0]) == IsCased(s[0]);
      assert t[1..] == TitleFrom(s[1..], IsCased(s[0]));
      TitleFromIdempotent(s[1..], IsCased(s[0]));
    }
  }

  /** Title-casing twice is title-casing once. */
  lemma TitleIdempotent(s: string)
    ensures Title(Title(s)) == Title(s)
  {
    TitleFromIdempotent(s, false);
  }

  /** Index of the last `c` in `s`, or -1 (`s.rfind(c)`). */
  function RFind(s: string, c: char): (i: int)
    ensures -1 <= i < |s|
    ensures i >= 0 ==> s[i] == c
    ensures forall j :: i < j < |s| ==> s[j] != c
  {
    if s == [] then -1
    else if s[|s| - 1] == c then |s| - 1
    else RFind(s[..|s| - 1], c)
  }

  /**
   * `os.path.splitext(p)`: the extension starts at the last dot of the final
   * component, unless everything before that dot in the component is dots.
   */
  function SplitExt(p: string): (r: (string, string))
    ensures r.0 + r.1 == p
    ensures r.1 == [] || (r.1[0] == '.' && '.' !in r.1[1..] && '/' !in r.1)
    ensures '.' !in p ==> r == (p, "")
  {
    var sepIndex := RFind(p, '/');
    var dotIndex := RFind(p, '.');
    if dotIndex > sepIndex && exists k :: sepIndex + 1 <= k < dotIndex && p[k] != '.' then
      (p[..dotIndex], p[dotIndex..])
    else
      (p, "")
  }

  /**
   * A file name made of a stem with a character other than a dot and an
   * extension (one dot, then no dot) splits into exactly those two parts;
   * a name whose part before its last dot is all dots has no extension.
   */
  lemma SplitExtName(stem: string, ext: string)
    requires '/' !in stem && '/' !in ext
    requires ext != [] && ext[0] == '.' && '.' !in ext[1..]
    ensures (exists k :: 0 <= k < |stem| && stem[k] != '.') ==> SplitExt(stem + ext) == (stem, ext)
    ensures (forall k :: 0 <= k < |stem| ==> stem[k] == '.') ==> SplitExt(stem + ext) == (stem + ext, "")
  {
    var p := stem + ext;
    var dot := RFind(p, '.');
    assert p[|stem|] == '.';
    assert dot == |stem|;
    assert RFind(p, '/') == -1;
    if k :| 0 <= k < |stem| && stem[k] != '.' {
      assert p[k] == stem[k];
      assert p[..dot] == stem && p[dot..] == ext;
    }
    if forall k :: 0 <= k < |stem| ==> stem[k] == '.' {
      assert forall k :: 0 <= k < dot ==> p[k] == stem[k];
    }
  }

  /** `os.path.join(a, b)` (POSIX): an absolute `b` wins; otherwise one `/` separates them unless `a` is empty or already ends with `/`. */
  function PathJoin(a: string, b: string): (r: string)
    ensures StartsWith(b, "/") ==> r == b
    ensures !StartsWith(b, "/") && a != [] && !EndsWith(a, "/") ==> r == a + "/" + b
    ensures !StartsWith(b, "/") && (a == [] || EndsWith(a, "/")) ==> r == a + b
    ensures EndsWith(r, b)
  {
    if StartsWith(b, "/") then b
    else if a == [] || EndsWith(a, "/") then a + b
    else a + "/" + b
  }
}
