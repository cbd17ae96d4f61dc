/**
 * The string operations the language-code transforms are built from:
 * `str.lower()`, `str.upper()`, one-character `str.replace`, `str.split`
 * on one separator, `sep.join`, and the ordering Python uses to compare
 * strings.  Case mapping covers the ASCII letters.
 */
module Strings {

  /** `lower()` of one character. */
  function LowerChar(c: char): char {
    if 'A' <= c <= 'Z' then (c as int + 32) as char else c
  }

  /** `upper()` of one character. */
  function UpperChar(c: char): char {
    if 'a' <= c <= 'z' then (c as int - 32) as char else c
  }

  /** Applies `f` to every character of `s`. */
  function MapChars(s: string, f: char -> char): string {
    seq(|s|, i requires 0 <= i < |s| => f(s[i]))
  }

  function Lower(s: string): string { MapChars(s, LowerChar) }

  function Upper(s: string): string { MapChars(s, UpperChar) }

  /** The character map of `replace(a, b)` for single characters. */
  function SwapFn(a: char, b: char): char -> char {
    c => if c == a then b else c
  }

  function Replace(s: string, a: char, b: char): string { MapChars(s, SwapFn(a, b)) }

  /** `[MapChars(p, f) for p in parts]`. */
  function MapEach(parts: seq<string>, f: char -> char): seq<string> {
    seq(|parts|, k requires 0 <= k < |parts| => MapChars(parts[k], f))
  }

  /** `sep.join(parts)`. */
  function Join(parts: seq<string>, sep: char): string {
    if |parts| == 0 then ""
    else if |parts| == 1 then parts[0]
    else parts[0] + [sep] + Join(parts[1..], sep)
  }

  /**
   * `s.split(sep)`: the maximal pieces between separators, never an
   * empty list (`"".split("-") == [""]`), and joining them restores `s`.
   */
  function Split(s: string, sep: char): (parts: seq<string>)
    ensures |parts| >= 1
    ensures forall k :: 0 <= k < |parts| ==> sep !in parts[k]
    ensures Join(parts, sep) == s
  {
    if s == [] then [""]
    else
      var rest := Split(s[1..], sep);
      if s[0] == sep then
        assert [""] + rest == [""] + rest[..1] + rest[1..];
        [""] + rest
      else
        var parts := [[s[0]] + rest[0]] + rest[1..];
        assert parts[1..] == rest[1..];
        assert |rest| > 1 ==> Join(rest, sep) == rest[0] + [sep] + Join(rest[1..], sep);
        assert s == [s[0]] + s[1..];
        parts
  }

  /** Python's `<` on strings: first differing code point decides, a proper prefix is smaller. */
  predicate LexLess(a: string, b: string) {
    if a == [] then b != []
    else if b == [] then false
    else if a[0] != b[0] then a[0] < b[0]
    else LexLess(a[1..], b[1..])
  }

  // ---------------------------------------------------------------------
  // Case mapping

  lemma LowerOfUpperChar(c: char)
    ensures LowerChar(UpperChar(c)) == LowerChar(c)
  {
  }

  lemma UpperOfLowerChar(c: char)
    requires UpperChar(c) == c
    ensures UpperChar(LowerChar(c)) == c
  {
  }

  /** Lower-casing forgets an upper-casing that happened before it. */
  lemma LowerOfUpper(s: string)
    ensures Lower(Upper(s)) == Lower(s)
  {
    forall i | 0 <= i < |s| ensures Lower(Upper(s))[i] == Lower(s)[i] {
      LowerOfUpperChar(s[i]);
    }
  }

  /** A string that `upper()` leaves alone survives `lower()` followed by `upper()`. */
  lemma UpperOfLower(s: string)
    requires Upper(s) == s
    ensures Upper(Lower(s)) == s
  {
    forall i | 0 <= i < |s| ensures Upper(Lower(s))[i] == s[i] {
      assert UpperChar(s[i]) == Upper(s)[i];
      UpperOfLowerChar(s[i]);
    }
  }

  /** Case mapping neither creates nor removes a non-letter character. */
  lemma CaseKeepsNonLetter(s: string, c: char)
    requires !('A' <= c <= 'Z') && !('a' <= c <= 'z')
    ensures c in Lower(s) <==> c in s
    ensures c in Upper(s) <==> c in s
  {
    forall i | 0 <= i < |s|
      ensures Lower(s)[i] == c <==> s[i] == c
      ensures Upper(s)[i] == c <==> s[i] == c
    {
      assert Lower(s)[i] == LowerChar(s[i]) && Upper(s)[i] == UpperChar(s[i]);
    }
  }

  /** `replace(a, b)` leaves no `a` behind. */
  lemma ReplaceRemoves(s: string, a: char, b: char)
    requires a != b
    ensures a !in Replace(s, a, b)
  {
    forall i | 0 <= i < |s| ensures Replace(s, a, b)[i] != a {
      assert Replace(s, a, b)[i] == SwapFn(a, b)(s[i]);
    }
  }

  /** A replacement of a character that does not occur changes nothing. */
  lemma ReplaceAbsent(s: string, a: char, b: char)
    requires a !in s
    ensures Replace(s, a, b) == s
  {
    forall i | 0 <= i < |s| ensures Replace(s, a, b)[i] == s[i] {
      assert s[i] != a;
    }
  }

  /** A character map distributes over `join`. */
  lemma {:induction false} MapJoin(parts: seq<string>, sep: char, f: char -> char)
    ensures MapChars(Join(parts, sep), f) == Join(MapEach(parts, f), f(sep))
  {
    if |parts| > 1 {
      MapJoin(parts[1..], sep, f);
      assert MapEach(parts, f)[1..] == MapEach(parts[1..], f);
      var head, tail := parts[0] + [sep], Join(parts[1..], sep);
      assert MapChars(head + tail, f) == MapChars(head, f) + MapChars(tail, f);
      assert MapChars(head, f) == MapChars(parts[0], f) + [f(sep)];
    }
  }

  // ---------------------------------------------------------------------
  // Split and join are inverse

  lemma {:induction false} SplitWithoutSeparator(s: string, sep: char)
    requires sep !in s
    ensures Split(s, sep) == [s]
  {
    if s != [] {
      SplitWithoutSeparator(s[1..], sep);
      assert [s[0]] + s[1..] == s;
    }
  }

  lemma {:induction false} SplitAtSeparator(p: string, t: string, sep: char)
    requires sep !in p
    ensures Split(p + [sep] + t, sep) == [p] + Split(t, sep)
  {
    var s := p + [sep] + t;
    if p == [] {
      assert s[1..] == t;
    } else {
      assert s[1..] == p[1..] + [sep] + t;
      SplitAtSeparator(p[1..], t, sep);
      assert [p[0]] + p[1..] == p;
    }
  }

  /** `join` followed by `split` gives the pieces back, when no piece holds the separator. */
  lemma {:induction false} SplitOfJoin(parts: seq<string>, sep: char)
    requires |parts| >= 1
    requires forall k :: 0 <= k < |parts| ==> sep !in parts[k]
    ensures Split(Join(parts, sep), sep) == parts
  {
    if |parts| == 1 {
      SplitWithoutSeparator(parts[0], sep);
    } else {
      SplitOfJoin(parts[1..], sep);
      SplitAtSeparator(parts[0], Join(parts[1..], sep), sep);
      assert [parts[0]] + parts[1..] == parts;
    }
  }

  // ---------------------------------------------------------------------
  // The string order is a strict total order

  lemma {:induction false} LexIrreflexive(a: string)
    ensures !LexLess(a, a)
  {
    if a != [] {
      LexIrreflexive(a[1..]);
    }
  }

  lemma {:induction false} LexTransitive(a: string, b: string, c: string)
    requires LexLess(a, b) && LexLess(b, c)
    ensures LexLess(a, c)
  {
    if a != [] && b != [] && c != [] && a[0] == b[0] == c[0] {
      LexTransitive(a[1..], b[1..], c[1..]);
    }
  }

  lemma {:induction false} LexTotal(a: string, b: string)
    requires a != b
    ensures LexLess(a, b) || LexLess(b, a)
  {
    if a != [] && b != [] && a[0] == b[0] {
      assert a == [a[0]] + a[1..] && b == [b[0]] + b[1..];
      LexTotal(a[1..], b[1..]);
    }
  }
}
