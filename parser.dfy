/**
 * `_robust_json_parse`: turns the model's free-text answer into a dict.
 *
 * The text is stripped, narrowed to the outermost `{ ... }` span, has its
 * single quotes turned into double quotes when it contains no double quote,
 * and loses every comma that directly precedes a `}` or `]` (whitespace in
 * between is dropped with it). The result goes to `json.loads`; when that
 * fails, every `"key": "value"` pair with a non-empty key is scraped out of
 * the text and collected into a dict.
 *
 * `json.loads` itself is not modelled: it is the parameter `loads`, which
 * answers `None` where Python raises `JSONDecodeError`.
 */
module Parser {
  import opened Wrappers
  import opened PyText
  import opened Schema

  // ---------------------------------------------------------------------
  // Step 1: the outermost brace span

  /** `re.search(r'\{.*\}', s, re.DOTALL)`: the match starts at the first
      `{` that has a `}` somewhere after it, which is the first `{` of all,
      and the greedy `.*` runs to the last `}`. Without a match the text is
      kept whole. */
  function BraceSpan(s: string): (r: string)
    ensures |r| <= |s|
    ensures r == s || (2 <= |r| && r[0] == '{' && r[|r| - 1] == '}')
  {
    var a := Find(s, '{');
    var b := RFind(s, '}');
    if a < b then s[a..b + 1] else s
  }

  /** Text with no `{` before the span and no `}` after it is narrowed to
      exactly that span. */
  lemma BraceSpanOfWrapped(pre: string, body: string, post: string)
    requires '{' !in pre && '}' !in post
    requires 2 <= |body| && body[0] == '{' && body[|body| - 1] == '}'
    ensures BraceSpan(pre + body + post) == body
  {
    var s := pre + body + post;
    var a := Find(s, '{');
    var b := RFind(s, '}');
    var last := |pre| + |body| - 1;
    assert s[|pre|] == '{' && s[last] == '}';
    assert forall j :: 0 <= j < |pre| ==> s[j] == pre[j];
    assert forall j :: last < j < |s| ==> s[j] == post[j - |pre| - |body|];
    assert a == |pre|;
    assert b == last;
    assert s[a..b + 1] == body;
  }

  /** When no `}` follows any `{`, the text is kept whole. */
  lemma BraceSpanNoMatch(s: string)
    requires forall i, j :: 0 <= i < j < |s| && s[i] == '{' ==> s[j] != '}'
    ensures BraceSpan(s) == s
  {
  }

  /** Narrowing twice is narrowing once. */
  lemma BraceSpanIdempotent(s: string)
    ensures BraceSpan(BraceSpan(s)) == BraceSpan(s)
  {
    var r := BraceSpan(s);
    if r != s {
      BraceSpanOfWrapped([], r, []);
      assert [] + r + [] == r;
    }
  }

  // ---------------------------------------------------------------------
  // Step 2: single quotes

  /** `candidate.replace("'", '"')`, done only when the text has a `'` and
      no `"`. */
  function SwapQuotes(s: string): (r: string)
    ensures |r| == |s|
    ensures '"' in s ==> r == s
    ensures '"' !in s ==> '\'' !in r
  {
    if '\'' in s && '"' !in s then Replace(s, '\'', '"') else s
  }

  /** Text that already has a double quote is left alone; text without one
      comes out with no single quote, every single quote having become a
      double quote and nothing else having changed. */
  lemma SwapQuotesMeaning(s: string)
    ensures '"' in s ==> SwapQuotes(s) == s
    ensures '"' !in s ==> '\'' !in SwapQuotes(s)
    ensures '"' !in s ==> |SwapQuotes(s)| == |s|
    ensures '"' !in s ==>
              forall i :: 0 <= i < |s| ==> SwapQuotes(s)[i] == (if s[i] == '\'' then '"' else s[i])
  {
  }

  // ---------------------------------------------------------------------
  // Step 3: trailing commas

  predicate IsCloser(c: char) { c == '}' || c == ']' }

  /** `re.sub(r',\s*([}\]])', r'\1', s)`: scanning left to right, a comma
      whose next non-whitespace character is `}` or `]` is deleted together
      with the whitespace after it; scanning resumes after the bracket. */
  function StripTrailingCommas(s: string): (r: string)
    ensures |r| <= |s|
    decreases |s|
  {
    if s == [] then []
    else if s[0] == ',' && TrimLeft(s[1..]) != [] && IsCloser(TrimLeft(s[1..])[0]) then
      var rest := TrimLeft(s[1..]);
      [rest[0]] + StripTrailingCommas(rest[1..])
    else
      [s[0]] + StripTrailingCommas(s[1..])
  }

  predicate NotCommaNorSpace(c: char) { c != ',' && !IsSpace(c) }

  /** Only commas and whitespace are ever deleted: every other character
      survives, in order. */
  lemma {:induction false} TrailingCommasKeepOthers(s: string)
    ensures Filter(NotCommaNorSpace, StripTrailingCommas(s)) == Filter(NotCommaNorSpace, s)
    decreases |s|
  {
    if s == [] {
    } else if s[0] == ',' && TrimLeft(s[1..]) != [] && IsCloser(TrimLeft(s[1..])[0]) {
      var rest := TrimLeft(s[1..]);
      TrailingCommasKeepOthers(rest[1..]);
      assert rest == [rest[0]] + rest[1..];
      FilterConcat(NotCommaNorSpace, [rest[0]], rest[1..]);
      FilterTrimLeft(NotCommaNorSpace, s[1..]);
      FilterConcat(NotCommaNorSpace, [rest[0]], StripTrailingCommas(rest[1..]));
    } else {
      TrailingCommasKeepOthers(s[1..]);
      FilterConcat(NotCommaNorSpace, [s[0]], StripTrailingCommas(s[1..]));
    }
  }

  /** Text with no closing bracket is left alone. */
  lemma {:induction false} NoCloserUnchanged(s: string)
    requires forall i :: 0 <= i < |s| ==> !IsCloser(s[i])
    ensures StripTrailingCommas(s) == s
    decreases |s|
  {
    if s != [] {
      assert !TrailingCommaAtStart(s) by {
        if s[0] == ',' && TrimLeft(s[1..]) != [] {
          TrimLeftShape(s[1..]);
          var rest := TrimLeft(s[1..]);
          assert rest[0] == s[1..][|s| - 1 - |rest|];
        }
      }
      KeepStep(s);
      NoCloserUnchanged(s[1..]);
      assert s == [s[0]] + s[1..];
    }
  }

  /** A comma, any whitespace, then a closing bracket: only the bracket is
      left. */
  lemma TrailingCommaDeleted(ws: string, c: char, rest: string)
    requires forall i :: 0 <= i < |ws| ==> IsSpace(ws[i])
    requires IsCloser(c)
    ensures StripTrailingCommas([','] + ws + [c] + rest) == [c] + StripTrailingCommas(rest)
  {
    var s := [','] + ws + [c] + rest;
    assert s[1..] == ws + ([c] + rest);
    TrimLeftSpaces(ws, [c] + rest);
    assert ([c] + rest)[1..] == rest;
  }

  /** Any character other than a comma is kept, whitespace included. */
  lemma OtherCharKept(c: char, t: string)
    requires c != ','
    ensures StripTrailingCommas([c] + t) == [c] + StripTrailingCommas(t)
  {
    assert ([c] + t)[0] == c && ([c] + t)[1..] == t;
  }

  /** A comma whose next non-whitespace character is not `}` or `]` (or
      that has none) is kept. */
  lemma CommaKept(t: string)
    requires TrimLeft(t) == [] || !IsCloser(TrimLeft(t)[0])
    ensures StripTrailingCommas([','] + t) == [','] + StripTrailingCommas(t)
  {
    assert ([','] + t)[0] == ',' && ([','] + t)[1..] == t;
  }

  /** Text without a comma is left alone. */
  lemma {:induction false} NoCommaUnchanged(s: string)
    requires ',' !in s
    ensures StripTrailingCommas(s) == s
    decreases |s|
  {
    if s != [] {
      assert s[0] in s;
      assert forall c :: c in s[1..] ==> c in s;
      OtherCharKept(s[0], s[1..]);
      assert s == [s[0]] + s[1..];
      NoCommaUnchanged(s[1..]);
    }
  }

  /** The pass works piece by piece: text that ends in a character other
      than a comma or whitespace is processed without looking past it. */
  lemma {:induction false} TrailingCommasConcat(a: string, b: string)
    requires a == [] || NotCommaNorSpace(a[|a| - 1])
    ensures StripTrailingCommas(a + b) == StripTrailingCommas(a) + StripTrailingCommas(b)
    decreases |a|
  {
    if a == [] {
      assert a + b == b;
    } else {
      EndsClean(a, 1);
      if a[0] == ',' {
        CommaRunInside(a, b);
        var ra := TrimLeft(a[1..]);
        if IsCloser(ra[0]) {
          TrailingCommasConcat(ra[1..], b);
          DeletedCommaConcat(a, b);
        } else {
          TrailingCommasConcat(a[1..], b);
          KeptCharConcat(a, b);
        }
      } else {
        TrailingCommasConcat(a[1..], b);
        KeptCharConcat(a, b);
      }
    }
  }

  /** A suffix of text that ends cleanly ends cleanly. */
  lemma EndsClean(a: string, n: nat)
    requires a != [] && NotCommaNorSpace(a[|a| - 1]) && n <= |a|
    ensures a[n..] == [] || NotCommaNorSpace(a[n..][|a[n..]| - 1])
  {
    if n < |a| {
      assert a[n..][|a[n..]| - 1] == a[|a| - 1];
    }
  }

  /** After a comma in text that ends cleanly, the whitespace run ends inside
      that text. */
  lemma CommaRunInside(a: string, b: string)
    requires a != [] && a[0] == ',' && NotCommaNorSpace(a[|a| - 1])
    ensures TrimLeft(a[1..]) != []
    ensures TrimLeft((a + b)[1..]) == TrimLeft(a[1..]) + b
    ensures TrimLeft(a[1..])[1..] == [] ||
            NotCommaNorSpace(TrimLeft(a[1..])[1..][|TrimLeft(a[1..])[1..]| - 1])
  {
    var tail := a[1..];
    assert (a + b)[1..] == tail + b;
    assert tail[|tail| - 1] == a[|a| - 1];
    TrimLeftPrefix(tail, b);
    TrimLeftShape(tail);
    var more := TrimLeft(tail)[1..];
    if more != [] {
      assert more[|more| - 1] == a[|a| - 1];
    }
  }

  /** Whether the pass deletes a trailing comma at the start of `s`. */
  predicate TrailingCommaAtStart(s: string) {
    s != [] && s[0] == ',' && TrimLeft(s[1..]) != [] && IsCloser(TrimLeft(s[1..])[0])
  }

  lemma DeleteStep(s: string)
    requires TrailingCommaAtStart(s)
    ensures StripTrailingCommas(s) == [TrimLeft(s[1..])[0]] + StripTrailingCommas(TrimLeft(s[1..])[1..])
  {
  }

  lemma KeepStep(s: string)
    requires s != [] && !TrailingCommaAtStart(s)
    ensures StripTrailingCommas(s) == [s[0]] + StripTrailingCommas(s[1..])
  {
  }

  lemma DeletedCommaConcat(a: string, b: string)
    requires TrailingCommaAtStart(a)
    requires TrimLeft((a + b)[1..]) == TrimLeft(a[1..]) + b
    requires StripTrailingCommas(TrimLeft(a[1..])[1..] + b) ==
             StripTrailingCommas(TrimLeft(a[1..])[1..]) + StripTrailingCommas(b)
    ensures StripTrailingCommas(a + b) == StripTrailingCommas(a) + StripTrailingCommas(b)
  {
    var ra := TrimLeft(a[1..]);
    var s := a + b;
    assert TrailingCommaAtStart(s) && TrimLeft(s[1..])[0] == ra[0] by {
      assert s[0] == ',';
      assert (ra + b)[0] == ra[0];
    }
    assert TrimLeft(s[1..])[1..] == ra[1..] + b;
    DeleteStep(s);
    DeleteStep(a);
    ConcatAssoc([ra[0]], StripTrailingCommas(ra[1..]), StripTrailingCommas(b));
  }



  lemma KeptCharConcat(a: string, b: string)
    requires a != [] && !TrailingCommaAtStart(a)
    requires a[0] == ',' ==> TrimLeft(a[1..]) != [] && TrimLeft((a + b)[1..]) == TrimLeft(a[1..]) + b
    requires StripTrailingCommas(a[1..] + b) == StripTrailingCommas(a[1..]) + StripTrailingCommas(b)
    ensures StripTrailingCommas(a + b) == StripTrailingCommas(a) + StripTrailingCommas(b)
  {
    var s := a + b;
    assert s[0] == a[0] && s[1..] == a[1..] + b;
    assert !TrailingCommaAtStart(s) by {
      if a[0] == ',' {
        assert TrimLeft(s[1..])[0] == TrimLeft(a[1..])[0];
      }
    }
    KeepStep(s);
    KeepStep(a);
    ConcatAssoc([a[0]], StripTrailingCommas(a[1..]), StripTrailingCommas(b));
  }

  /** Leading whitespace of `a + b` stops inside `a` when `a` ends in a
      non-space. */
  lemma {:induction false} TrimLeftPrefix(a: string, b: string)
    requires a != [] && !IsSpace(a[|a| - 1])
    ensures TrimLeft(a) != [] && TrimLeft(a + b) == TrimLeft(a) + b
  {
    assert (a + b)[0] == a[0];
    if IsSpace(a[0]) {
      assert |a| >= 2;
      assert (a + b)[1..] == a[1..] + b;
      assert a[1..][|a[1..]| - 1] == a[|a| - 1];
      TrimLeftPrefix(a[1..], b);
    }
  }

  /** One pass is not always enough: a comma left in front of a bracket by
      the deletion of the next comma stays. */
  lemma SinglePass(s: string)
    requires s == ",,}"
    ensures StripTrailingCommas(s) == ",}"
  {
    assert s == [','] + [] + [','] + "}";
    assert TrimLeft(s[1..]) == s[1..];
    TrailingCommaDeleted([], '}', []);
    assert s[1..] == [','] + [] + ['}'] + [];
  }

  // ---------------------------------------------------------------------
  // Step 4, fallback: scraping "key": "value" pairs

  /** A double-quoted run at the start of `s` (`"([^"]+)"`, or `"([^"]*)"`
      when `allowEmpty`): the text between the quotes and what follows the
      closing quote. */
  function Quoted(s: string, allowEmpty: bool): (m: Option<(string, string)>)
    ensures m.Some? ==> '"' !in m.value.0 && (allowEmpty || m.value.0 != [])
    ensures m.Some? ==> s == ['"'] + m.value.0 + ['"'] + m.value.1
  {
    if s == [] || s[0] != '"' then None
    else
      var k := Find(s[1..], '"');
      if k == |s| - 1 || (k == 0 && !allowEmpty) then None
      else
        var run, rest := s[1..][..k], s[1..][k + 1..];
        assert forall j :: 0 <= j < k ==> run[j] == s[1..][j];
        assert s[1..] == run + ['"'] + rest;
        assert s == [s[0]] + s[1..];
        ConcatAssoc(['"'], run + ['"'], rest);
        ConcatAssoc(['"'], run, ['"']);
        Some((run, rest))
  }

  /** One attempt of the pattern `"([^"]+)"\s*:\s*"([^"]*)"` at the start
      of `s`: the key, the value and the text after the match. */
  function MatchPair(s: string): (m: Option<(string, string, string)>)
    ensures m.Some? ==> m.value.0 != [] && '"' !in m.value.0 && '"' !in m.value.1
    ensures m.Some? ==> |m.value.2| < |s|
  {
    match Quoted(s, false)
    case None => None
    case Some((key, afterKey)) =>
      var t := TrimLeft(afterKey);
      if t == [] || t[0] != ':' then None
      else
        match Quoted(TrimLeft(t[1..]), true)
        case None => None
        case Some((value, rest)) => Some((key, value, rest))
  }

  /** The text `"key"`, whitespace, `:`, whitespace, `"value"`. */
  function PairText(key: string, ws1: string, ws2: string, value: string): string {
    ['"'] + key + ['"'] + ws1 + [':'] + ws2 + ['"'] + value + ['"']
  }

  /** A match is a prefix of the text: the quoted key, a colon with any
      whitespace around it, and the quoted value; `rest` is what follows. */
  lemma MatchPairOccurs(s: string, key: string, value: string, rest: string)
    requires MatchPair(s) == Some((key, value, rest))
    ensures exists ws1, ws2 :: AllSpace(ws1) && AllSpace(ws2) && s == PairText(key, ws1, ws2, value) + rest
  {
    var afterKey := Quoted(s, false).value.1;
    assert s == ['"'] + key + ['"'] + afterKey;
    var ws1, ws2 := SplitColon(afterKey);
    var u := TrimLeft(TrimLeft(afterKey)[1..]);
    assert u == ['"'] + value + ['"'] + rest;
    PairTextSplit(key, ws1, ws2, value, rest);
  }

  /** Text whose first non-space is `:` is whitespace, `:`, whitespace, and
      the text from the next non-space on. */
  lemma SplitColon(a: string) returns (ws1: string, ws2: string)
    requires TrimLeft(a) != [] && TrimLeft(a)[0] == ':'
    ensures AllSpace(ws1) && AllSpace(ws2)
    ensures a == ws1 + ([':'] + ws2 + TrimLeft(TrimLeft(a)[1..]))
  {
    var t := TrimLeft(a);
    var u := TrimLeft(t[1..]);
    ws1 := SpacePrefix(a);
    ws2 := SpacePrefix(t[1..]);
    assert t == [':'] + t[1..];
    ConcatAssoc([':'], ws2, u);
  }

  /** The whitespace `lstrip()` removes. */
  lemma SpacePrefix(a: string) returns (ws: string)
    ensures AllSpace(ws) && a == ws + TrimLeft(a)
  {
    TrimLeftShape(a);
    ws := a[..|a| - |TrimLeft(a)|];
    assert a == ws + a[|a| - |TrimLeft(a)|..];
  }

  lemma PairTextSplit(key: string, ws1: string, ws2: string, value: string, rest: string)
    ensures PairText(key, ws1, ws2, value) + rest ==
            ['"'] + key + ['"'] + (ws1 + ([':'] + ws2 + (['"'] + value + ['"'] + rest)))
  {
  }

  /** Conversely, the pattern matches a quoted key, a colon with any
      whitespace around it and a quoted value, and nothing past them. */
  lemma MatchSpaced(key: string, ws1: string, ws2: string, value: string, tail: string)
    requires key != [] && '"' !in key && '"' !in value
    requires AllSpace(ws1) && AllSpace(ws2)
    ensures MatchPair(PairText(key, ws1, ws2, value) + tail) == Some((key, value, tail))
  {
    var v := ['"'] + value + ['"'] + tail;
    var t := [':'] + ws2 + v;
    var afterKey := ws1 + t;
    PairTextSplit(key, ws1, ws2, value, tail);
    QuotedRendered(key, afterKey, false);
    TrimLeftSpaces(ws1, t);
    assert t[1..] == ws2 + v;
    TrimLeftSpaces(ws2, v);
    QuotedRendered(value, tail, true);
  }

  /** `re.findall` with that pattern: matches are taken left to right
      without overlapping; where no match starts, the scan moves on by one
      character. */
  function FindPairs(s: string): (ps: seq<(string, string)>)
    ensures forall i :: 0 <= i < |ps| ==> ps[i].0 != [] && '"' !in ps[i].0 && '"' !in ps[i].1
    decreases |s|
  {
    if s == [] then []
    else match MatchPair(s)
      case Some((k, v, rest)) => [(k, v)] + FindPairs(rest)
      case None => FindPairs(s[1..])
  }

  /** Text without a double quote yields no pair. */
  lemma {:induction false} NoQuoteNoPairs(s: string)
    requires '"' !in s
    ensures FindPairs(s) == []
    decreases |s|
  {
    if s != [] {
      assert s[0] in s;
      assert forall c :: c in s[1..] ==> c in s;
      NoQuoteNoPairs(s[1..]);
    }
  }

  /** Where the pattern matches nowhere, nothing is scraped. */
  lemma {:induction false} NoMatchNoPairs(s: string)
    requires forall i :: 0 <= i < |s| ==> MatchPair(s[i..]).None?
    ensures FindPairs(s) == []
    decreases |s|
  {
    if s != [] {
      assert s[0..] == s;
      forall i | 0 <= i < |s[1..]| ensures MatchPair(s[1..][i..]).None? {
        assert s[1..][i..] == s[i + 1..];
      }
      NoMatchNoPairs(s[1..]);
    }
  }

  /** The pattern matches at position `i` of `s`, giving pair `p`. */
  predicate MatchesAt(s: string, i: int, p: (string, string)) {
    0 <= i < |s| && MatchPair(s[i..]).Some? && MatchPair(s[i..]).value.0 == p.0 && MatchPair(s[i..]).value.1 == p.1
  }

  /** The pattern matches somewhere in `s`, giving pair `p`. */
  ghost predicate Occurs(s: string, p: (string, string)) {
    exists i :: MatchesAt(s, i, p)
  }

  /** Each pair of `qs` is a match found somewhere in `s`. */
  ghost predicate AllOccur(s: string, qs: seq<(string, string)>) {
    forall j :: 0 <= j < |qs| ==> Occurs(s, qs[j])
  }

  /** Matches in a suffix of `s` are matches in `s`. */
  lemma OccurInSuffix(s: string, n: nat, qs: seq<(string, string)>)
    requires n <= |s| && AllOccur(s[n..], qs)
    ensures AllOccur(s, qs)
  {
    forall j | 0 <= j < |qs| ensures Occurs(s, qs[j]) {
      var i :| MatchesAt(s[n..], i, qs[j]);
      assert s[n..][i..] == s[n + i..];
      assert MatchesAt(s, n + i, qs[j]);
    }
  }

  lemma OccurCons(s: string, p: (string, string), qs: seq<(string, string)>)
    requires Occurs(s, p) && AllOccur(s, qs)
    ensures AllOccur(s, [p] + qs)
  {
    AllCons(q => Occurs(s, q), p, qs);
  }

  /** A property of `p` and of every element of `qs` holds for every
      element of `[p] + qs`. */
  lemma AllCons<T>(P: T -> bool, p: T, qs: seq<T>)
    requires P(p) && forall j :: 0 <= j < |qs| ==> P(qs[j])
    ensures forall j :: 0 <= j < |[p] + qs| ==> P(([p] + qs)[j])
  {
    forall j | 0 <= j < |[p] + qs| ensures P(([p] + qs)[j]) {
      if j > 0 {
        assert ([p] + qs)[j] == qs[j - 1];
      }
    }
  }

  /** Every scraped pair is a match found somewhere in the text. */
  lemma {:induction false} FindPairsOccur(s: string)
    ensures AllOccur(s, FindPairs(s))
    decreases |s|
  {
    if s != [] && MatchPair(s).Some? {
      var (k, v, rest) := MatchPair(s).value;
      assert FindPairs(s) == [(k, v)] + FindPairs(rest);
      FindPairsOccur(rest);
      MatchPairOccurs(s, k, v, rest);
      var n := |s| - |rest|;
      assert rest == s[n..];
      OccurInSuffix(s, n, FindPairs(rest));
      assert Occurs(s, (k, v)) by {
        assert s[0..] == s;
        assert MatchesAt(s, 0, (k, v));
      }
      OccurCons(s, (k, v), FindPairs(rest));
    } else if s != [] {
      assert FindPairs(s) == FindPairs(s[1..]);
      FindPairsOccur(s[1..]);
      OccurInSuffix(s, 1, FindPairs(s[1..]));
    }
  }

  /** A pair the scraper can give back: a non-empty key, and no double quote
      in key or value. */
  predicate Scrapable(p: (string, string)) {
    p.0 != [] && '"' !in p.0 && '"' !in p.1
  }

  /** `"key": "value"` as a JSON object member. */
  function RenderPair(p: (string, string)): string {
    ['"'] + p.0 + ['"', ':', ' ', '"'] + p.1 + ['"']
  }

  /** The members of a JSON object, separated by ", ". */
  function RenderPairs(ps: seq<(string, string)>): string
  {
    if ps == [] then []
    else if |ps| == 1 then RenderPair(ps[0])
    else RenderPair(ps[0]) + [',', ' '] + RenderPairs(ps[1..])
  }

  /** The first `c` of `a + [c] + b` is the one after `a` when `a` has none. */
  lemma FindAfter(a: string, c: char, b: string)
    requires c !in a
    ensures Find(a + [c] + b, c) == |a|
  {
    var s := a + [c] + b;
    assert s[|a|] == c;
    assert forall j :: 0 <= j < |a| ==> s[j] == a[j];
  }

  /** A quoted run is read back up to its closing quote. */
  lemma QuotedRendered(x: string, tail: string, allowEmpty: bool)
    requires '"' !in x && (allowEmpty || x != [])
    ensures Quoted(['"'] + x + ['"'] + tail, allowEmpty) == Some((x, tail))
  {
    var s := ['"'] + x + ['"'] + tail;
    assert s[1..] == x + ['"'] + tail;
    FindAfter(x, '"', tail);
    assert s[1..][..|x|] == x;
    assert s[1..][|x| + 1..] == tail;
  }

  /** The pattern matches a rendered member, and nothing past it. */
  lemma MatchRendered(p: (string, string), tail: string)
    requires Scrapable(p)
    ensures MatchPair(RenderPair(p) + tail) == Some((p.0, p.1, tail))
  {
    assert RenderPair(p) == PairText(p.0, [], [' '], p.1);
    MatchSpaced(p.0, [], [' '], p.1, tail);
  }

  /** Where a match starts, the scan takes it and resumes after it. */
  lemma FindPairsTakesMatch(s: string, p: (string, string), rest: string)
    requires MatchPair(s) == Some((p.0, p.1, rest))
    ensures FindPairs(s) == [p] + FindPairs(rest)
  {
  }

  /** A rendered member followed by ", " is scraped, then the scan resumes
      after the separator. */
  lemma FindPairsMember(p: (string, string), rest: string)
    requires Scrapable(p)
    ensures FindPairs(RenderPair(p) + ([',', ' '] + rest)) == [p] + FindPairs(rest)
  {
    var sep := [',', ' '];
    MatchRendered(p, sep + rest);
    FindPairsTakesMatch(RenderPair(p) + (sep + rest), p, sep + rest);
    SkipUnquoted(sep, rest);
  }

  /** Scraping rendered members gives them back, in order, and then whatever
      the text after them yields. */
  lemma {:induction false} FindPairsRendered(ps: seq<(string, string)>, tail: string)
    requires forall i :: 0 <= i < |ps| ==> Scrapable(ps[i])
    ensures FindPairs(RenderPairs(ps) + tail) == ps + FindPairs(tail)
    decreases |ps|
  {
    if ps == [] {
      assert RenderPairs(ps) + tail == tail;
    } else if |ps| == 1 {
      MatchRendered(ps[0], tail);
      FindPairsTakesMatch(RenderPair(ps[0]) + tail, ps[0], tail);
      assert ps == [ps[0]];
    } else {
      var first, sep, more := RenderPair(ps[0]), [',', ' '], RenderPairs(ps[1..]);
      var rest := more + tail;
      assert RenderPairs(ps) + tail == first + (sep + rest) by {
        assert RenderPairs(ps) == first + sep + more;
        ConcatAssoc(first + sep, more, tail);
        ConcatAssoc(first, sep, rest);
      }
      assert forall i :: 0 <= i < |ps[1..]| ==> Scrapable(ps[1..][i]) by {
        assert forall i :: 0 <= i < |ps[1..]| ==> ps[1..][i] == ps[i + 1];
      }
      calc {
        FindPairs(RenderPairs(ps) + tail);
        FindPairs(first + (sep + rest));
        { FindPairsMember(ps[0], rest); }
        [ps[0]] + FindPairs(rest);
        { FindPairsRendered(ps[1..], tail); }
        [ps[0]] + (ps[1..] + FindPairs(tail));
        { ConcatAssoc([ps[0]], ps[1..], FindPairs(tail));
          assert ps == [ps[0]] + ps[1..]; }
        ps + FindPairs(tail);
      }
    }
  }

  /** Characters other than `"` in front of the text are skipped. */
  lemma {:induction false} SkipUnquoted(pre: string, s: string)
    requires '"' !in pre
    ensures FindPairs(pre + s) == FindPairs(s)
    decreases |pre|
  {
    if pre == [] {
      assert pre + s == s;
    } else {
      assert (pre + s)[0] == pre[0];
      assert (pre + s)[1..] == pre[1..] + s;
      assert forall c :: c in pre[1..] ==> c in pre;
      SkipUnquoted(pre[1..], s);
    }
  }

  // ---------------------------------------------------------------------
  // Step 4, fallback: `{k: v for k, v in pairs}`

  /** A dict as its items in iteration (first-insertion) order. */
  type Items = seq<(string, string)>

  function Keys(d: Items): (ks: seq<string>)
    ensures |ks| == |d|
    ensures forall i :: 0 <= i < |d| ==> ks[i] == d[i].0
  {
    if d == [] then [] else [d[0].0] + Keys(d[1..])
  }

  predicate UniqueKeys(d: Items) {
    forall i, j :: 0 <= i < j < |d| ==> d[i].0 != d[j].0
  }

  /** `d.get(k)`. */
  function Get(d: Items, k: string): Option<string> {
    if d == [] then None
    else if d[0].0 == k then Some(d[0].1)
    else Get(d[1..], k)
  }

  /** `d[k] = v`: an existing key keeps its place and takes the new value; a
      new key goes at the end. */
  function Put(d: Items, k: string, v: string): (r: Items)
    ensures k in Keys(d) ==> Keys(r) == Keys(d)
    ensures k !in Keys(d) ==> Keys(r) == Keys(d) + [k]
    ensures forall k' :: Get(r, k') == if k' == k then Some(v) else Get(d, k')
    ensures k !in Keys(d) ==> r == d + [(k, v)]
  {
    if d == [] then [(k, v)]
    else if d[0].0 == k then [(k, v)] + d[1..]
    else
      assert Keys(d) == [d[0].0] + Keys(d[1..]);
      [d[0]] + Put(d[1..], k, v)
  }

  /** The dict comprehension over the scraped pairs. */
  function ToDict(ps: seq<(string, string)>): (d: Items)
    ensures |d| <= |ps|
    ensures UniqueKeys(d)
  {
    if ps == [] then []
    else
      var front := ToDict(ps[..|ps| - 1]);
      PutUnique(front, ps[|ps| - 1].0, ps[|ps| - 1].1);
      Put(front, ps[|ps| - 1].0, ps[|ps| - 1].1)
  }

  /** Put only writes the pair it is given. */
  lemma {:induction false} PutKeeps(P: ((string, string)) -> bool, d: Items, k: string, v: string)
    requires forall i :: 0 <= i < |d| ==> P(d[i])
    requires P((k, v))
    ensures forall i :: 0 <= i < |Put(d, k, v)| ==> P(Put(d, k, v)[i])
  {
    if d != [] && d[0].0 != k {
      PutKeeps(P, d[1..], k, v);
    }
  }

  /** Every item of the dict is one of the pairs: a property all pairs have,
      the items have. */
  lemma {:induction false} ToDictKeeps(P: ((string, string)) -> bool, ps: seq<(string, string)>)
    requires forall i :: 0 <= i < |ps| ==> P(ps[i])
    ensures forall i :: 0 <= i < |ToDict(ps)| ==> P(ToDict(ps)[i])
  {
    if ps != [] {
      ToDictKeeps(P, ps[..|ps| - 1]);
      PutKeeps(P, ToDict(ps[..|ps| - 1]), ps[|ps| - 1].0, ps[|ps| - 1].1);
    }
  }

  /** The keys of `ks` in order of first appearance, each once. */
  function FirstOccurrences(ks: seq<string>): seq<string> {
    if ks == [] then []
    else
      var front := FirstOccurrences(ks[..|ks| - 1]);
      if ks[|ks| - 1] in front then front else front + [ks[|ks| - 1]]
  }

  /** The value a key was last paired with. */
  function LastValue(ps: seq<(string, string)>, k: string): Option<string> {
    if ps == [] then None
    else if ps[|ps| - 1].0 == k then Some(ps[|ps| - 1].1)
    else LastValue(ps[..|ps| - 1], k)
  }

  /** Distinct keys stay distinct under Put. */
  lemma PutUnique(d: Items, k: string, v: string)
    requires UniqueKeys(d)
    ensures UniqueKeys(Put(d, k, v))
  {
    var r := Put(d, k, v);
    forall i, j | 0 <= i < j < |r| ensures r[i].0 != r[j].0 {
      assert Keys(r)[i] == r[i].0 && Keys(r)[j] == r[j].0;
      if k !in Keys(d) && j == |d| {
        assert Keys(d)[i] == d[i].0;
      } else {
        assert Keys(d)[i] == d[i].0 && Keys(d)[j] == d[j].0;
      }
    }
  }

  /** Building a dict from pairs: every key once, in order of first
      appearance, holding the value it was last paired with. */
  lemma {:induction false} ToDictMeaning(ps: seq<(string, string)>)
    ensures UniqueKeys(ToDict(ps))
    ensures Keys(ToDict(ps)) == FirstOccurrences(Keys(ps))
    ensures forall k :: Get(ToDict(ps), k) == LastValue(ps, k)
  {
    if ps != [] {
      var front := ps[..|ps| - 1];
      ToDictMeaning(front);
      PutUnique(ToDict(front), ps[|ps| - 1].0, ps[|ps| - 1].1);
      assert Keys(ps)[..|ps| - 1] == Keys(front);
    }
  }

  /** Pairs whose keys are already distinct make a dict that lists them
      as they are. */
  lemma {:induction false} ToDictOfUnique(ps: seq<(string, string)>)
    requires UniqueKeys(ps)
    ensures ToDict(ps) == ps
  {
    if ps != [] {
      var front := ps[..|ps| - 1];
      var last := ps[|ps| - 1];
      assert ps == front + [last];
      assert UniqueKeys(front) by {
        assert forall i :: 0 <= i < |front| ==> front[i] == ps[i];
      }
      ToDictOfUnique(front);
      assert last.0 !in Keys(front) by {
        forall i | 0 <= i < |front| ensures Keys(front)[i] != last.0 {
          assert Keys(front)[i] == ps[i].0;
        }
      }
      assert ToDict(ps) == Put(front, last.0, last.1);
    }
  }

  // ---------------------------------------------------------------------
  // The whole parse

  /** The text handed to `json.loads`. */
  function Candidate(text: string): (r: string)
    ensures |r| <= |text|
  {
    StripTrailingCommas(SwapQuotes(BraceSpan(Strip(text))))
  }

  /** The dict the fallback returns, its values being strings. */
  function AsEntries(d: Items): (es: seq<Entry>)
    ensures |es| == |d|
    ensures forall i :: 0 <= i < |d| ==> es[i] == (d[i].0, Text(d[i].1))
  {
    if d == [] then [] else [(d[0].0, Text(d[0].1))] + AsEntries(d[1..])
  }

  /** What the fallback can produce: distinct, non-empty keys without a
      double quote, each with a string value without a double quote. */
  ghost predicate ScrapedDict(es: seq<Entry>) {
    && (forall i, j :: 0 <= i < j < |es| ==> es[i].0 != es[j].0)
    && (forall i :: 0 <= i < |es| ==> es[i].0 != [] && '"' !in es[i].0)
    && (forall i :: 0 <= i < |es| ==> es[i].1.Text? && '"' !in es[i].1.s)
  }

  /** `_robust_json_parse`. `loads` stands for `json.loads`: `None` where it
      raises `JSONDecodeError`, otherwise the value it returns. */
  function RobustJsonParse(loads: string -> Option<Parsed>, text: string): (r: Parsed)
    ensures text == [] ==> r == Dict([])
    ensures text != [] && loads(Candidate(text)).Some? ==> r == loads(Candidate(text)).value
    ensures text != [] && loads(Candidate(text)).None? ==> r.Dict? && ScrapedDict(r.entries)
  {
    if text == [] then Dict([])
    else
      var candidate := Candidate(text);
      match loads(candidate)
      case Some(parsed) => parsed
      case None =>
        var ps := FindPairs(candidate);
        ToDictMeaning(ps);
        ToDictKeeps(Scrapable, ps);
        Dict(AsEntries(ToDict(ps)))
  }

  /** When `json.loads` fails and the pattern matches nowhere in the
      candidate, the result is the empty dict. */
  lemma NoPairGivesEmptyDict(loads: string -> Option<Parsed>, text: string)
    requires loads(Candidate(text)).None?
    requires forall i :: 0 <= i < |Candidate(text)| ==> MatchPair(Candidate(text)[i..]).None?
    ensures RobustJsonParse(loads, text) == Dict([])
  {
    NoMatchNoPairs(Candidate(text));
  }

  // ---------------------------------------------------------------------
  // The fallback on a well-formed object

  /** No `}` or `]` anywhere in `x`. */
  predicate NoCloser(x: string) {
    forall i :: 0 <= i < |x| ==> !IsCloser(x[i])
  }

  /** `{"k1": "v1", "k2": "v2", ...}`. */
  function ObjectText(ps: seq<(string, string)>): string {
    ['{'] + RenderPairs(ps) + ['}']
  }

  lemma {:induction false} RenderPairsShape(ps: seq<(string, string)>)
    requires forall i :: 0 <= i < |ps| ==> NoCloser(ps[i].0) && NoCloser(ps[i].1)
    ensures NoCloser(RenderPairs(ps))
    ensures ps != [] ==> RenderPairs(ps)[|RenderPairs(ps)| - 1] == '"'
    ensures ps != [] ==> '"' in RenderPairs(ps)
    decreases |ps|
  {
    if ps != [] {
      var first := RenderPair(ps[0]);
      assert first[0] == '"';
      assert forall i :: 0 <= i < |first| ==> !IsCloser(first[i]) by {
        assert forall i :: 0 <= i < |ps[0].0| ==> !IsCloser(ps[0].0[i]);
        assert forall i :: 0 <= i < |ps[0].1| ==> !IsCloser(ps[0].1[i]);
      }
      if |ps| > 1 {
        RenderPairsShape(ps[1..]);
        var r := RenderPairs(ps[1..]);
        assert RenderPairs(ps) == first + ([',', ' '] + r);
        assert RenderPairs(ps)[0] == '"';
      }
    }
  }

  /** An object written as `{"k1": "v1", "k2": "v2", ...}`, whose keys and
      values hold no `"`, `}` or `]`, goes to `json.loads` exactly as
      written: it is already stripped, is its own brace span, needs no
      quote swap and has no trailing comma. */
  lemma CandidateOfObject(ps: seq<(string, string)>)
    requires forall i :: 0 <= i < |ps| ==> Scrapable(ps[i]) && NoCloser(ps[i].0) && NoCloser(ps[i].1)
    ensures Candidate(ObjectText(ps)) == ObjectText(ps)
  {
    var text := ObjectText(ps);
    var r := RenderPairs(ps);
    RenderPairsShape(ps);
    assert Strip(text) == text by {
      StripUnpadded(text);
    }
    assert BraceSpan(text) == text by {
      BraceSpanOfWrapped([], text, []);
      assert [] + text + [] == text;
    }
    assert SwapQuotes(text) == text by {
      if ps != [] {
        var i :| 0 <= i < |r| && r[i] == '"';
        assert text[i + 1] == '"';
      } else {
        assert text == ['{', '}'];
      }
    }
    ObjectHasNoTrailingComma(ps);
  }

  /** The comma pass does not know about strings: in the valid JSON
      `{"a": "x, }"}` the value loses its comma and space before
      `json.loads` sees it. */
  lemma CommaInStringIsLost(text: string)
    requires text == "{\"a\": \"x, }\"}"
    ensures Candidate(text) == "{\"a\": \"x}\"}"
  {
    ExampleReachesCommaPass(text);
    var pre, post := "{\"a\": \"x", "\"}";
    assert text == pre + [','] + [' '] + ['}'] + post;
    CommaBeforeCloserLost(pre, post);
    assert pre + ['}'] + post == "{\"a\": \"x}\"}";
  }

  lemma ExampleReachesCommaPass(text: string)
    requires text == "{\"a\": \"x, }\"}"
    ensures SwapQuotes(BraceSpan(Strip(text))) == text
  {
    StripUnpadded(text);
    BraceSpanOfWrapped([], text, []);
    assert [] + text + [] == text;
    assert text[1] == '"';
  }

  /** Between comma-free texts, `, }` loses its comma and space. */
  lemma CommaBeforeCloserLost(pre: string, post: string)
    requires ',' !in pre && ',' !in post
    requires pre != [] && NotCommaNorSpace(pre[|pre| - 1])
    ensures StripTrailingCommas(pre + [','] + [' '] + ['}'] + post) == pre + ['}'] + post
  {
    var b := [','] + [' '] + ['}'] + post;
    assert pre + [','] + [' '] + ['}'] + post == pre + b;
    TrailingCommasConcat(pre, b);
    NoCommaUnchanged(pre);
    TrailingCommaDeleted([' '], '}', post);
    NoCommaUnchanged(post);
    ConcatAssoc(pre, ['}'], post);
  }

  lemma ObjectHasNoTrailingComma(ps: seq<(string, string)>)
    requires forall i :: 0 <= i < |ps| ==> NoCloser(ps[i].0) && NoCloser(ps[i].1)
    ensures StripTrailingCommas(ObjectText(ps)) == ObjectText(ps)
  {
    var r := RenderPairs(ps);
    RenderPairsShape(ps);
    var open := ['{'] + r;
    assert ObjectText(ps) == open + ['}'];
    assert open[|open| - 1] == (if ps == [] then '{' else '"');
    TrailingCommasConcat(open, ['}']);
    assert NoCloser(open) by {
      assert forall i :: 1 <= i < |open| ==> open[i] == r[i - 1];
    }
    NoCloserUnchanged(open);
    assert StripTrailingCommas(['}']) == ['}'];
  }

  /** The scrape of a well-formed object gives back its members. */
  lemma ScrapeOfObject(ps: seq<(string, string)>)
    requires forall i :: 0 <= i < |ps| ==> Scrapable(ps[i])
    ensures FindPairs(ObjectText(ps)) == ps
  {
    var r := RenderPairs(ps);
    assert ObjectText(ps) == ['{'] + (r + ['}']);
    SkipUnquoted(['{'], r + ['}']);
    FindPairsRendered(ps, ['}']);
    NoQuoteNoPairs(['}']);
    assert ps + [] == ps;
  }

  /** An object written as above whose strings `json.loads` still refuses
      (a raw control character, an invalid escape) is recovered by the
      fallback: its members, as a dict. */
  lemma FallbackRecoversObject(loads: string -> Option<Parsed>, ps: seq<(string, string)>)
    requires forall i :: 0 <= i < |ps| ==> Scrapable(ps[i]) && NoCloser(ps[i].0) && NoCloser(ps[i].1)
    requires loads(ObjectText(ps)).None?
    ensures RobustJsonParse(loads, ObjectText(ps)) == Dict(AsEntries(ToDict(ps)))
  {
    CandidateOfObject(ps);
    ScrapeOfObject(ps);
  }

  /** With distinct keys those members come back exactly as written. */
  lemma FallbackRecoversMembers(loads: string -> Option<Parsed>, ps: seq<(string, string)>)
    requires forall i :: 0 <= i < |ps| ==> Scrapable(ps[i]) && NoCloser(ps[i].0) && NoCloser(ps[i].1)
    requires UniqueKeys(ps)
    requires loads(ObjectText(ps)).None?
    ensures RobustJsonParse(loads, ObjectText(ps)) == Dict(AsEntries(ps))
  {
    FallbackRecoversObject(loads, ps);
    ToDictOfUnique(ps);
  }
}
