# Invoice field extraction: parsing and normalisation

This project models the deterministic core of an invoice extractor. A
language model reads each PDF invoice and answers with JSON-like text. The
extractor then does three things:

1. `_robust_json_parse` turns the answer into a dict. It strips the text and
   narrows it to the outermost `{ ... }` span. When the text has single
   quotes and no double quote, it swaps them. It deletes every comma that
   sits just before a `}` or `]`. Then it calls `json.loads`. When that
   raises `JSONDecodeError`, it scrapes the `"key": "value"` pairs out of
   the text and builds a dict from them.
2. `_postprocess_json_fields` maps that dict onto the ten canonical fields.
   Each field starts as "". A key selects a field when its lower-cased,
   stripped form equals the field's name lower-cased. The last such pair
   decides the field. Values are stripped. The money fields ("Unit price",
   "Amount", "Total") go through `_strip_currency_symbols`, and the phone
   number keeps only its digits.
3. One table row per file: the file name, then the ten fields, under
   `COLUMNS`.

Modules, one file each:

- `wrappers.dfy` (`Wrappers`): `Option`.
- `pytext.dfy` (`PyText`): the Python string operations used here
  (`isspace`, ASCII `lower`, `strip`, one-character `replace`, `find`,
  `rfind`, and deleting a character class with `re.sub`), with lemmas about
  them.
- `schema.dfy` (`Schema`): the fields, `keys`, `COLUMNS`, and the values
  passed between the steps.
- `currency.dfy` (`Currency`): `_strip_currency_symbols`.
- `parser.dfy` (`Parser`): `_robust_json_parse`.
- `normalizer.dfy` (`Normalizer`): `_postprocess_json_fields`. Its loop is
  the method `PostprocessJsonFields`. The method is proved equal to the
  field-by-field function `Normalize`, and the lemmas are about `Normalize`.
- `extraction.dfy` (`Extraction`): parse then normalise, and the row.

`json.loads` is the parameter `loads: string -> Option<Parsed>`. It returns
`None` where Python raises `JSONDecodeError`.

The extraction prompt (invoiceutil.py:37-40) asks the language model to drop
currency symbols and thousands separators and to write numbers like
"1234.56". `_strip_currency_symbols` does not itself convert a decimal comma:
it only deletes characters. A Brazilian amount such as "R$ 1.500,00" that
reaches it therefore comes out as "1.50000", not "1500.00"
(`Currency.DecimalCommaIsDropped`; `Currency.DecimalCommaJoinsParts` states
the general case).

## Model

| member | source | states |
|---|---|---|
| PyText.IsSpace | invoiceutil.py:73 | the whitespace of `\s`, `isspace()` and `strip()`; none of it is a digit, `.`, `-`, `,`, `:`, `"`, `'`, `{`, `}` or `]` |
| PyText.Lower | invoiceutil.py:86 | `lower()` keeps the length and lower-cases each ASCII capital |
| PyText.Strip | invoiceutil.py:89 | `strip()` never lengthens and leaves no whitespace at either end |
| PyText.Replace | invoiceutil.py:71 | `replace(a, b)` keeps the length and swaps exactly the occurrences of `a` |
| PyText.Filter | invoiceutil.py:74 | deleting a character class never lengthens the text |
| PyText.FilterKeeps | invoiceutil.py:74 | every character a class filter keeps is in the class and comes from the input |
| PyText.FilterConcat | invoiceutil.py:74 | a class filter works character by character: filtering `a + b` is filtering `a` then `b` |
| PyText.FilterKeepsAll | invoiceutil.py:74 | text wholly inside the class is unchanged |
| PyText.FilterDropsAll | invoiceutil.py:74 | text wholly outside the class becomes "" |
| PyText.FilterStrip | invoiceutil.py:93 | `strip()` before a filter that drops whitespace changes nothing |
| Schema.Position | invoiceutil.py:78-79 | each canonical field has one position in `keys` |
| Schema.FieldsListedOnce | invoiceutil.py:78-79 | `keys` lists every canonical field exactly once |
| Schema.ColumnsAreFileThenFields | invoiceutil.py:48-60 | `COLUMNS` is "file" followed by the names in `keys`, in the same order |
| Schema.LowerNamesDistinct | invoiceutil.py:84 | no two canonical names lower-case to the same text, so the alias dict loses no field |
| Schema.NameUnpadded | invoiceutil.py:84-86 | a lower-cased canonical name is unchanged by `strip()` |
| Currency.CollapseWhitespace | invoiceutil.py:73 | no two adjacent whitespace characters remain; the result is empty exactly when the input is; a leading non-space is kept |
| Currency.CollapseRun | invoiceutil.py:73 | a run of two or more whitespace characters becomes exactly one space |
| Currency.CollapseKeeps | invoiceutil.py:73 | a non-space, or a lone whitespace character, is kept as it is |
| Currency.StripCurrencySymbols | invoiceutil.py:68-75 | every character of the result is an ASCII digit, `.` or `-` |
| Currency.StripCurrencyIsMoneyFilter | invoiceutil.py:71-74 | the four rewrites together keep exactly the input's digits, dots and minus signs, in order |
| Currency.StripCurrencyIdempotent | invoiceutil.py:68-75 | cleaning an already cleaned value changes nothing |
| Currency.DecimalCommaJoinsParts | invoiceutil.py:74 | the text around an amount is dropped, and so is its decimal comma, which joins the integer part to the cents |
| Currency.DecimalCommaIsDropped | invoiceutil.py:68-75 | "R$ 1.500,00" becomes "1.50000" |
| Normalizer.AliasTable | invoiceutil.py:84 | the alias dict maps each lower-cased canonical name to its field, and holds nothing else |
| Normalizer.Lookup | invoiceutil.py:86 | `aliases.get(str(k).lower().strip())`: found exactly when the lower-cased, stripped key is in the table, and then it is that entry |
| Normalizer.KeyField | invoiceutil.py:84-86 | a selected field's lower-cased name is the key lower-cased and stripped; a key that selects nothing matches no field's name |
| Normalizer.AliasIff | invoiceutil.py:84-86 | a key selects field `f` exactly when its lower-cased, stripped form is `f`'s name lower-cased |
| Normalizer.NameSelectsItself | invoiceutil.py:84-86 | every canonical name selects its own field |
| Normalizer.Coerce | invoiceutil.py:89-93 | `None` gives ""; a money field's value holds only digits, `.` and `-`; the phone number's holds only digits |
| Normalizer.CoerceMeaning | invoiceutil.py:89-93 | `None` gives ""; a money field keeps exactly the raw text's digits, dots and minus signs; the phone number keeps exactly its digits; any other field is the stripped text |
| Normalizer.CoerceIsNormal | invoiceutil.py:89-93 | a coerced value is in normal form for its field |
| Normalizer.CoerceNormalIsIdentity | invoiceutil.py:89-93 | coercing a value already in normal form gives it back |
| Normalizer.CoerceIdempotent | invoiceutil.py:89-93 | coercion is idempotent |
| Normalizer.Fill | invoiceutil.py:80 | the record has all ten fields |
| Normalizer.FillIsCanonical | invoiceutil.py:89-94 | every field of the record is in normal form for that field |
| Normalizer.Normalize | invoiceutil.py:77-95 | the result has all ten fields, each in normal form; input that is not a dict gives "" everywhere |
| Normalizer.FieldFromSnoc | invoiceutil.py:85-94 | one more pair changes only the field its key selects, which takes the coerced value |
| Normalizer.FillSnocUnselected | invoiceutil.py:86-88 | a pair whose key selects nothing leaves the record unchanged |
| Normalizer.FillSnocSelected | invoiceutil.py:89-94 | a pair whose key selects a field overwrites that field with the coerced value and changes nothing else |
| Normalizer.FillSnoc | invoiceutil.py:85-94 | a pair whose key selects nothing leaves the record unchanged; otherwise it overwrites its field, whatever an earlier pair put there |
| Normalizer.LastAliasDecides | invoiceutil.py:85-94 | a field holds the coerced value of the last pair whose key selects it |
| Normalizer.UnmatchedFieldStaysEmpty | invoiceutil.py:80-88 | a field that no key selects stays "" |
| Normalizer.UnknownKeyIgnored | invoiceutil.py:86-88 | a pair whose key selects no field can be removed from anywhere in the dict without changing the record |
| Normalizer.PostprocessJsonFields | invoiceutil.py:77-95 | the loop returns `Normalize(d)`, a record with all ten fields in normal form |
| Normalizer.NormalizeFixedPoint | invoiceutil.py:77-95 | feeding a normalised record back in, keyed by the canonical names, returns it unchanged |
| Normalizer.NormalizeIdempotent | invoiceutil.py:77-95 | normalising twice is the same as normalising once |
| Parser.BraceSpan | invoiceutil.py:101-103 | the result is either the whole text or a span of at least two characters that starts with `{` and ends with `}` |
| Parser.BraceSpanOfWrapped | invoiceutil.py:101-103 | with no `{` before a braced body and no `}` after it, the text narrows to exactly that body |
| Parser.BraceSpanNoMatch | invoiceutil.py:101-103 | when no `}` follows any `{`, the text is kept whole |
| Parser.BraceSpanIdempotent | invoiceutil.py:101-103 | narrowing twice is narrowing once |
| Parser.SwapQuotes | invoiceutil.py:104-105 | the length is kept; text with a `"` is unchanged; text without one comes out with no `'` |
| Parser.SwapQuotesMeaning | invoiceutil.py:104-105 | text with a `"` is unchanged; text without one comes out with every `'` turned into `"` and nothing else changed |
| Parser.StripTrailingCommas | invoiceutil.py:106 | the pass never lengthens the text |
| Parser.TrailingCommasKeepOthers | invoiceutil.py:106 | only commas and whitespace are deleted; every other character survives, in order |
| Parser.NoCloserUnchanged | invoiceutil.py:106 | text with no `}` or `]` is left alone |
| Parser.OtherCharKept | invoiceutil.py:106 | any character other than a comma, whitespace included, is kept |
| Parser.CommaKept | invoiceutil.py:106 | a comma whose next non-whitespace character is not `}` or `]`, or which has none, is kept |
| Parser.NoCommaUnchanged | invoiceutil.py:106 | text without a comma is left alone |
| Parser.TrailingCommaDeleted | invoiceutil.py:106 | a comma, any whitespace, then `}` or `]`: only the bracket is kept, and the scan resumes after it |
| Parser.TrailingCommasConcat | invoiceutil.py:106 | a text ending in a character other than a comma or whitespace is processed separately from what follows it |
| Parser.SinglePass | invoiceutil.py:106 | the pass runs only once, so ",,}" becomes ",}" |
| Parser.Quoted | invoiceutil.py:110 | the text is `"`, the run, `"` and then the rest; the run holds no `"` and is non-empty when required |
| Parser.MatchPair | invoiceutil.py:110 | a match has a non-empty key without `"` and a value without `"`, and the scan goes on after it |
| Parser.MatchPairOccurs | invoiceutil.py:110 | a match is a prefix of the text: quoted key, whitespace, `:`, whitespace, quoted value, then the rest |
| Parser.MatchSpaced | invoiceutil.py:110 | conversely, a quoted key and value around a colon, with any whitespace on either side, are matched, and nothing past them |
| Parser.FindPairs | invoiceutil.py:110 | every scraped key is non-empty and quote-free, and every scraped value is quote-free |
| Parser.FindPairsOccur | invoiceutil.py:110 | every scraped pair is a match found at some position of the text |
| Parser.NoMatchNoPairs | invoiceutil.py:110 | where the pattern matches at no position, nothing is scraped |
| Parser.NoQuoteNoPairs | invoiceutil.py:110 | text without a `"` yields no pair |
| Parser.FindPairsRendered | invoiceutil.py:110 | scraping rendered `"k": "v"` members separated by ", " returns them in order, followed by whatever the rest of the text yields |
| Parser.Put | invoiceutil.py:111 | an existing key keeps its place and takes the new value; a new key is appended; no other key changes |
| Parser.ToDict | invoiceutil.py:111 | the built dict has distinct keys and no more items than there are pairs |
| Parser.ToDictKeeps | invoiceutil.py:111 | every item of the built dict is one of the scraped pairs |
| Parser.ToDictMeaning | invoiceutil.py:111 | the built dict has distinct keys, in order of first appearance, each with the value it was last paired with |
| Parser.ToDictOfUnique | invoiceutil.py:111 | pairs with distinct keys come back as they are |
| Parser.RobustJsonParse | invoiceutil.py:97-111 | empty text gives `{}`; otherwise the result is what `json.loads` returns on the cleaned candidate, or, when it fails, a dict of distinct non-empty quote-free keys with quote-free string values |
| Parser.Candidate | invoiceutil.py:100-106 | the text handed to `json.loads` is never longer than the answer |
| Parser.NoPairGivesEmptyDict | invoiceutil.py:107-111 | when `json.loads` fails and the pattern matches nowhere in the candidate, the result is `{}` |
| Parser.CandidateOfObject | invoiceutil.py:100-106 | an object written as `{"k": "v", ...}` with ", " separators, whose keys and values hold no `"`, `}` or `]`, reaches `json.loads` exactly as written |
| Parser.CommaBeforeCloserLost | invoiceutil.py:106 | between comma-free texts, `, }` loses its comma and space |
| Parser.CommaInStringIsLost | invoiceutil.py:100-106 | the pass ignores strings: the valid JSON `{"a": "x, }"}` reaches `json.loads` as `{"a": "x}"}` |
| Parser.ScrapeOfObject | invoiceutil.py:110 | scraping such an object returns its members in order |
| Parser.FallbackRecoversObject | invoiceutil.py:97-111 | if `json.loads` refuses such an object (for example a raw control character or a bad escape in a string), the fallback still returns its members as a dict |
| Parser.FallbackRecoversMembers | invoiceutil.py:97-111 | with distinct keys, those members come back exactly as written |
| Extraction.ExtractRecord | invoiceutil.py:164-165 | parsing then normalising any answer gives all ten fields, each in normal form |
| Extraction.EmptyAnswerGivesBlankRecord | invoiceutil.py:98-99 | an empty answer gives "" in every field |
| Extraction.Row | invoiceutil.py:167-170 | the row has one value per entry of `COLUMNS`: the file name under "file", and each field's value under that field's name |
| Extraction.RepeatedKeyKeepsFirstPlace | invoiceutil.py:111 | if a scraped key repeats after another spelling of the same field, it keeps its first position, so the other spelling decides the field |

## Left out

- `json.loads` is not modelled. It is the parameter `loads`, which also fixes the iteration order of the dict it returns.
- Only `JSONDecodeError` is treated as a parse failure. Other exceptions from `json.loads` are not modelled.
- PyText.Filter: its own contract only bounds the length. What it keeps is stated by FilterKeeps, FilterConcat, FilterKeepsAll and FilterDropsAll.
- Parser.Candidate: its own contract only bounds the length. Each of its four steps is stated by its own lemmas (BraceSpan, SwapQuotesMeaning, and the trailing-comma lemmas).
- Parser.RobustJsonParse: when `json.loads` succeeds, the contract says only that its value is returned unchanged. Nothing is stated about the JSON grammar.
- `str(v)` of a value that is not a string is not computed. `FieldValue.Text` carries the text that `str()` gives.
- The non-string branch of `_strip_currency_symbols` (invoiceutil.py:69-70) is not modelled. The function is only ever called with a string.
- `str.lower()` is modelled for ASCII letters only. For alias lookup this is exact: the only non-ASCII character Python lowers to a single ASCII letter is the Kelvin sign, and no canonical name contains a `k`.
- Extraction.Row: the DataFrame row is modelled as a list of values in `COLUMNS` order, not as a dict.
- Everything else in `create_docs` is left out: the API-key check, saving uploads to temporary files, PDF loading, embeddings, retrieval, the language-model call, reading `answer`/`result` from its response, and building the DataFrame. These are I/O and foreign calls.
- The prompt text and the Streamlit interface (invoice-extraction.py) are not part of this model.
