/**
 * `_strip_currency_symbols`: the cleanup applied to the money fields
 * ("Unit price", "Amount", "Total") of an invoice record. It is a chain of
 * four rewrites of the string:
 *   1. every no-break space becomes a plain space,
 *   2. the characters R $ € £ ¥ are deleted,
 *   3. every run of two or more whitespace characters becomes one space, and
 *      the result is stripped,
 *   4. every character other than an ASCII digit, `.` or `-` is deleted.
 * None of the first three steps touches a digit, `.` or `-`, so the whole
 * chain is the last filter applied to the original input
 * (StripCurrencyIsMoneyFilter). Decimal commas are not converted: a comma is
 * simply deleted.
 */
module Currency {
  import opened PyText

  const NoBreakSpace: char := '\U{00A0}'

  /** The regex class `[R$€£¥]` of step 2. */
  predicate IsCurrencyGlyph(c: char) {
    c in {'R', '$', '\U{20AC}', '\U{00A3}', '\U{00A5}'}
  }

  predicate NotCurrencyGlyph(c: char) { !IsCurrencyGlyph(c) }

  /** The regex class `[0-9.\-]` of step 4. */
  predicate IsMoneyChar(c: char) { IsDigit(c) || c == '.' || c == '-' }

  /** `re.sub(r'\s{2,}', ' ', s)`: each maximal run of at least two
      whitespace characters becomes a single space; a lone whitespace
      character is kept as it is. */
  function CollapseWhitespace(s: string): (r: string)
    ensures s == [] <==> r == []
    ensures s != [] ==> (IsSpace(r[0]) <==> IsSpace(s[0]))
    ensures s != [] && !IsSpace(s[0]) ==> r[0] == s[0]
    ensures forall i :: 0 <= i < |r| - 1 ==> !(IsSpace(r[i]) && IsSpace(r[i + 1]))
    decreases |s|
  {
    if s == [] then []
    else if |s| >= 2 && IsSpace(s[0]) && IsSpace(s[1]) then
      var rest := TrimLeft(s);
      var tail := CollapseWhitespace(rest);
      assert rest == [] || !IsSpace(tail[0]);
      [' '] + tail
    else
      var tail := CollapseWhitespace(s[1..]);
      assert IsSpace(s[0]) && tail != [] ==> !IsSpace(tail[0]);
      [s[0]] + tail
  }

  /** A run of two or more whitespace characters becomes one space. */
  lemma CollapseRun(ws: string, t: string)
    requires |ws| >= 2 && forall i :: 0 <= i < |ws| ==> IsSpace(ws[i])
    requires t == [] || !IsSpace(t[0])
    ensures CollapseWhitespace(ws + t) == [' '] + CollapseWhitespace(t)
  {
    var s := ws + t;
    assert s[0] == ws[0] && s[1] == ws[1];
    TrimLeftSpaces(ws, t);
  }

  /** A character that does not start a whitespace run of two or more (a
      non-space, or a lone whitespace character) is kept as it is. */
  lemma CollapseKeeps(c: char, t: string)
    requires !IsSpace(c) || t == [] || !IsSpace(t[0])
    ensures CollapseWhitespace([c] + t) == [c] + CollapseWhitespace(t)
  {
    assert ([c] + t)[1..] == t;
  }

  function StripCurrencySymbols(s: string): (r: string)
    ensures forall i :: 0 <= i < |r| ==> IsMoneyChar(r[i])
  {
    var s1 := Replace(s, NoBreakSpace, ' ');
    var s2 := Filter(NotCurrencyGlyph, s1);
    var s3 := Strip(CollapseWhitespace(s2));
    FilterKeeps(IsMoneyChar, s3);
    Filter(IsMoneyChar, s3)
  }

  /** Collapsing whitespace is invisible to a filter that keeps no
      whitespace. */
  lemma {:induction false} FilterCollapse(keep: char -> bool, s: string)
    requires forall c :: IsSpace(c) ==> !keep(c)
    ensures Filter(keep, CollapseWhitespace(s)) == Filter(keep, s)
    decreases |s|
  {
    if s == [] {
    } else if |s| >= 2 && IsSpace(s[0]) && IsSpace(s[1]) {
      var rest := TrimLeft(s);
      FilterCollapse(keep, rest);
      FilterConcat(keep, [' '], CollapseWhitespace(rest));
      FilterTrimLeft(keep, s);
    } else {
      FilterCollapse(keep, s[1..]);
      FilterConcat(keep, [s[0]], CollapseWhitespace(s[1..]));
    }
  }

  /** Deleting characters a later filter deletes anyway changes nothing. */
  lemma {:induction false} FilterAfterDelete(s: string)
    ensures Filter(IsMoneyChar, Filter(NotCurrencyGlyph, s)) == Filter(IsMoneyChar, s)
  {
    if s != [] {
      FilterAfterDelete(s[1..]);
      FilterConcat(IsMoneyChar, if NotCurrencyGlyph(s[0]) then [s[0]] else [],
                   Filter(NotCurrencyGlyph, s[1..]));
    }
  }

  /** The whole cleanup keeps exactly the input's digits, dots and minus
      signs, in their original order: nothing is added or reordered. */
  lemma StripCurrencyIsMoneyFilter(s: string)
    ensures StripCurrencySymbols(s) == Filter(IsMoneyChar, s)
  {
    var s1 := Replace(s, NoBreakSpace, ' ');
    var s2 := Filter(NotCurrencyGlyph, s1);
    var s3 := CollapseWhitespace(s2);
    FilterStrip(IsMoneyChar, s3);
    FilterCollapse(IsMoneyChar, s2);
    FilterAfterDelete(s1);
    FilterReplace(IsMoneyChar, s, NoBreakSpace, ' ');
  }

  /** Applying the cleanup to its own output changes nothing. */
  lemma StripCurrencyIdempotent(s: string)
    ensures StripCurrencySymbols(StripCurrencySymbols(s)) == StripCurrencySymbols(s)
  {
    StripCurrencyIsMoneyFilter(s);
    StripCurrencyIsMoneyFilter(StripCurrencySymbols(s));
    FilterIdempotent(IsMoneyChar, s);
  }

  /** A decimal comma is not understood: text around the digits is
      dropped, and so is the comma, which glues the integer part and the
      cents together. */
  lemma DecimalCommaJoinsParts(noise: string, whole: string, cents: string)
    requires forall i :: 0 <= i < |noise| ==> !IsMoneyChar(noise[i])
    requires forall i :: 0 <= i < |whole| ==> IsMoneyChar(whole[i])
    requires forall i :: 0 <= i < |cents| ==> IsMoneyChar(cents[i])
    ensures StripCurrencySymbols(noise + whole + [','] + cents) == whole + cents
  {
    StripCurrencyIsMoneyFilter(noise + whole + [','] + cents);
    FilterDecimalComma(noise, whole, cents);
  }

  lemma FilterDecimalComma(noise: string, whole: string, cents: string)
    requires forall i :: 0 <= i < |noise| ==> !IsMoneyChar(noise[i])
    requires forall i :: 0 <= i < |whole| ==> IsMoneyChar(whole[i])
    requires forall i :: 0 <= i < |cents| ==> IsMoneyChar(cents[i])
    ensures Filter(IsMoneyChar, noise + whole + [','] + cents) == whole + cents
  {
    assert Filter(IsMoneyChar, noise + whole) == whole by {
      FilterConcat(IsMoneyChar, noise, whole);
      FilterDropsAll(IsMoneyChar, noise);
      FilterKeepsAll(IsMoneyChar, whole);
    }
    assert Filter(IsMoneyChar, noise + whole + [',']) == whole by {
      FilterConcat(IsMoneyChar, noise + whole, [',']);
      FilterDropsAll(IsMoneyChar, [',']);
    }
    FilterConcat(IsMoneyChar, noise + whole + [','], cents);
    FilterKeepsAll(IsMoneyChar, cents);
  }

  /** A Brazilian-formatted amount keeps its digits and its dot, and loses its
      decimal comma: "R$ 1.500,00" becomes "1.50000", not "1500.00". */
  lemma DecimalCommaIsDropped(s: string)
    requires s == "R$ 1.500,00"
    ensures StripCurrencySymbols(s) == "1.50000"
  {
    var noise, whole, cents := "R$ ", "1.500", "00";
    assert s == noise + whole + [','] + cents;
    DecimalCommaJoinsParts(noise, whole, cents);
    assert whole + cents == "1.50000";
  }
}
