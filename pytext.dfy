/**
 * The Python string operations the invoice cleanup relies on, over Dafny's
 * `string` (a sequence of Unicode scalar values):
 *   - `str.isspace()` / the regex class `\s` (IsSpace),
 *   - `str.lower()` restricted to ASCII letters (Lower),
 *   - `str.lstrip()`, `str.rstrip()`, `str.strip()` with no argument,
 *   - `str.replace(a, b)` for one-character `a` and `b`,
 *   - `re.sub(r'[^...]', '', s)` and `re.sub(r'[...]', '', s)`, i.e. deleting
 *     every character outside (or inside) a character class (Filter).
 */
module PyText {

  /** The characters Python's `str.isspace()` accepts; `\s` in a `str` regex
      and the argument-less `strip()` use the same set. None of them is a
      digit or one of the characters the cleanup and the parser look for. */
  predicate IsSpace(c: char): (b: bool)
    ensures b ==> !('0' <= c <= '9') && c != '.' && c != '-' && c != ','
    ensures b ==> c != ':' && c != '"' && c != '\'' && c != '{' && c != '}' && c != ']'
  {
    || c == ' '
    || '\t' <= c <= '\r'                      // \t \n \v \f \r
    || '\U{001C}' <= c <= '\U{001F}'          // file, group, record, unit separators
    || c == '\U{0085}' || c == '\U{00A0}' || c == '\U{1680}'
    || '\U{2000}' <= c <= '\U{200A}'
    || c == '\U{2028}' || c == '\U{2029}' || c == '\U{202F}' || c == '\U{205F}'
    || c == '\U{3000}'
  }

  predicate NotSpace(c: char) { !IsSpace(c) }

  /** A run of whitespace only (the regex `\s*`). */
  predicate AllSpace(ws: string) {
    forall i :: 0 <= i < |ws| ==> IsSpace(ws[i])
  }

  /** The regex class `[0-9]`: ASCII digits only. */
  predicate IsDigit(c: char) { '0' <= c <= '9' }

  /** `c.lower()` for ASCII letters; every other character is left alone. */
  function LowerChar(c: char): (d: char)
    ensures 'A' <= c <= 'Z' ==> 'a' <= d <= 'z' && d as int == c as int + 32
    ensures !('A' <= c <= 'Z') ==> d == c
  {
    if 'A' <= c <= 'Z' then (c as int + 32) as char else c
  }

  function Lower(s: string): (r: string)
    ensures |r| == |s|
    ensures forall i :: 0 <= i < |s| ==> r[i] == LowerChar(s[i])
  {
    if s == [] then [] else [LowerChar(s[0])] + Lower(s[1..])
  }

  /** Deletes every character for which `keep` is false, keeping the order. */
  function Filter(keep: char -> bool, s: string): (r: string)
    ensures |r| <= |s|
  {
    if s == [] then []
    else (if keep(s[0]) then [s[0]] else []) + Filter(keep, s[1..])
  }

  /** `s.replace(a, b)` for single characters. */
  function Replace(s: string, a: char, b: char): (r: string)
    ensures |r| == |s|
    ensures forall i :: 0 <= i < |s| ==> r[i] == (if s[i] == a then b else s[i])
  {
    if s == [] then [] else [if s[0] == a then b else s[0]] + Replace(s[1..], a, b)
  }

  /** `s.find(c)`, with |s| standing for "not found" (Python's -1): the index
      of the first `c`. */
  function Find(s: string, c: char): (i: nat)
    ensures i <= |s|
    ensures i < |s| ==> s[i] == c
    ensures forall j :: 0 <= j < i ==> s[j] != c
  {
    if s == [] then 0
    else if s[0] == c then 0
    else 1 + Find(s[1..], c)
  }

  /** `s.rfind(c)`: the index of the last `c`, or -1. */
  function RFind(s: string, c: char): (i: int)
    ensures -1 <= i < |s|
    ensures 0 <= i ==> s[i] == c
    ensures forall j :: i < j < |s| ==> s[j] != c
  {
    if s == [] then -1
    else if s[|s| - 1] == c then |s| - 1
    else RFind(s[..|s| - 1], c)
  }

  /** `s.lstrip()`: the suffix left after the leading whitespace
      (TrimLeftShape). */
  function TrimLeft(s: string): (r: string)
    ensures |r| <= |s|
    ensures r == [] || !IsSpace(r[0])
    ensures s != [] && IsSpace(s[0]) ==> |r| < |s|
  {
    if s != [] && IsSpace(s[0]) then TrimLeft(s[1..]) else s
  }

  /** `s.rstrip()`: the prefix left before the trailing whitespace
      (TrimRightShape). */
  function TrimRight(s: string): (r: string)
    ensures |r| <= |s|
    ensures r == [] || !IsSpace(r[|r| - 1])
  {
    if s != [] && IsSpace(s[|s| - 1]) then TrimRight(s[..|s| - 1]) else s
  }

  /** `lstrip()` removes a prefix made only of whitespace, and nothing else. */
  lemma {:induction false} TrimLeftShape(s: string)
    ensures |TrimLeft(s)| <= |s| && TrimLeft(s) == s[|s| - |TrimLeft(s)|..]
    ensures forall i :: 0 <= i < |s| - |TrimLeft(s)| ==> IsSpace(s[i])
  {
    if s != [] && IsSpace(s[0]) {
      TrimLeftShape(s[1..]);
    }
  }

  /** `rstrip()` removes a suffix made only of whitespace, and nothing else. */
  lemma {:induction false} TrimRightShape(s: string)
    ensures TrimRight(s) == s[..|TrimRight(s)|]
    ensures forall i :: |TrimRight(s)| <= i < |s| ==> IsSpace(s[i])
  {
    if s != [] && IsSpace(s[|s| - 1]) {
      TrimRightShape(s[..|s| - 1]);
    }
  }

  /** `lstrip()` of whitespace followed by text that does not start with
      whitespace is that text. */
  lemma {:induction false} TrimLeftSpaces(ws: string, t: string)
    requires forall i :: 0 <= i < |ws| ==> IsSpace(ws[i])
    requires t == [] || !IsSpace(t[0])
    ensures TrimLeft(ws + t) == t
  {
    if ws == [] {
      assert ws + t == t;
    } else {
      assert (ws + t)[1..] == ws[1..] + t;
      TrimLeftSpaces(ws[1..], t);
    }
  }

  /** `s.strip()`: the contiguous middle of `s` between leading and trailing
      whitespace (FilterStrip: only whitespace is removed). */
  function Strip(s: string): (r: string)
    ensures |r| <= |s|
    ensures r == [] || (!IsSpace(r[0]) && !IsSpace(r[|r| - 1]))
  {
    TrimRightShape(TrimLeft(s));
    TrimRight(TrimLeft(s))
  }

  /** Concatenation is associative (stated once, so that proofs need not
      rediscover it). */
  lemma ConcatAssoc<T>(x: seq<T>, y: seq<T>, z: seq<T>)
    ensures x + (y + z) == (x + y) + z
  {
  }

  // ---------------------------------------------------------------------
  // Lemmas about Filter

  /** Every character a filter keeps passes the test and comes from the
      input. */
  lemma {:induction false} FilterKeeps(keep: char -> bool, s: string)
    ensures forall i :: 0 <= i < |Filter(keep, s)| ==> keep(Filter(keep, s)[i]) && Filter(keep, s)[i] in s
  {
    if s != [] {
      FilterKeeps(keep, s[1..]);
    }
  }

  lemma {:induction false} FilterConcat(keep: char -> bool, a: string, b: string)
    ensures Filter(keep, a + b) == Filter(keep, a) + Filter(keep, b)
  {
    if a == [] {
      assert a + b == b;
    } else {
      var head := if keep(a[0]) then [a[0]] else [];
      assert (a + b)[0] == a[0];
      assert (a + b)[1..] == a[1..] + b;
      FilterConcat(keep, a[1..], b);
      calc {
        Filter(keep, a + b);
        head + Filter(keep, a[1..] + b);
        head + (Filter(keep, a[1..]) + Filter(keep, b));
        (head + Filter(keep, a[1..])) + Filter(keep, b);
      }
    }
  }

  /** Filtering a string all of whose characters are kept changes nothing. */
  lemma {:induction false} FilterKeepsAll(keep: char -> bool, s: string)
    requires forall i :: 0 <= i < |s| ==> keep(s[i])
    ensures Filter(keep, s) == s
  {
    if s != [] {
      FilterKeepsAll(keep, s[1..]);
    }
  }

  /** Filtering a string none of whose characters are kept gives "". */
  lemma {:induction false} FilterDropsAll(keep: char -> bool, s: string)
    requires forall i :: 0 <= i < |s| ==> !keep(s[i])
    ensures Filter(keep, s) == []
  {
    if s != [] {
      FilterDropsAll(keep, s[1..]);
    }
  }

  /** A filter is idempotent. */
  lemma FilterIdempotent(keep: char -> bool, s: string)
    ensures Filter(keep, Filter(keep, s)) == Filter(keep, s)
  {
    FilterKeeps(keep, s);
    FilterKeepsAll(keep, Filter(keep, s));
  }

  /** Replacing one character the filter drops by another it drops is
      invisible after filtering. */
  lemma {:induction false} FilterReplace(keep: char -> bool, s: string, a: char, b: char)
    requires !keep(a) && !keep(b)
    ensures Filter(keep, Replace(s, a, b)) == Filter(keep, s)
  {
    if s != [] {
      assert Replace(s, a, b)[1..] == Replace(s[1..], a, b);
      FilterReplace(keep, s[1..], a, b);
    }
  }

  /** For a filter that drops whitespace, `lstrip()`, `rstrip()` and
      `strip()` beforehand change nothing. */
  lemma FilterTrimLeft(keep: char -> bool, s: string)
    requires forall c :: IsSpace(c) ==> !keep(c)
    ensures Filter(keep, TrimLeft(s)) == Filter(keep, s)
  {
    TrimLeftShape(s);
    var r := TrimLeft(s);
    var n := |s| - |r|;
    var pad := s[..n];
    assert s == pad + r;
    forall i | 0 <= i < |pad| ensures !keep(pad[i]) {
      assert IsSpace(s[i]);
    }
    FilterDropsAll(keep, pad);
    FilterConcat(keep, pad, r);
  }

  lemma FilterTrimRight(keep: char -> bool, s: string)
    requires forall c :: IsSpace(c) ==> !keep(c)
    ensures Filter(keep, TrimRight(s)) == Filter(keep, s)
  {
    TrimRightShape(s);
    var r := TrimRight(s);
    var pad := s[|r|..];
    assert s == r + pad;
    forall i | 0 <= i < |pad| ensures !keep(pad[i]) {
      assert IsSpace(s[|r| + i]);
    }
    FilterDropsAll(keep, pad);
    FilterConcat(keep, r, pad);
  }

  lemma FilterStrip(keep: char -> bool, s: string)
    requires forall c :: IsSpace(c) ==> !keep(c)
    ensures Filter(keep, Strip(s)) == Filter(keep, s)
  {
    FilterTrimLeft(keep, s);
    FilterTrimRight(keep, TrimLeft(s));
  }

  /** `strip()` is idempotent. */
  lemma StripIdempotent(s: string)
    ensures Strip(Strip(s)) == Strip(s)
  {
    var r := Strip(s);
    assert TrimLeft(r) == r;
    assert TrimRight(r) == r;
  }

  /** A string with no whitespace at either end is its own `strip()`. */
  lemma StripUnpadded(s: string)
    requires s == [] || (!IsSpace(s[0]) && !IsSpace(s[|s| - 1]))
    ensures Strip(s) == s
  {
  }
}
