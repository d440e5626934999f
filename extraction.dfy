/**
 * How one answer becomes one table row: the answer text is parsed, the
 * result normalised onto the ten fields, and the row is the file name
 * followed by those fields, under the column names of COLUMNS.
 */
module Extraction {
  import opened Wrappers
  import opened PyText
  import opened Schema
  import opened Normalizer
  import opened Parser

  /** `_postprocess_json_fields(_robust_json_parse(raw_answer))`. */
  function ExtractRecord(loads: string -> Option<Parsed>, text: string): (r: Record)
    ensures IsCanonicalRecord(r)
  {
    Normalize(RobustJsonParse(loads, text))
  }

  /** An empty answer gives the record with every field "". */
  lemma EmptyAnswerGivesBlankRecord(loads: string -> Option<Parsed>)
    ensures forall f :: ExtractRecord(loads, [])[f] == ""
  {
    forall f: Field ensures ExtractRecord(loads, [])[f] == "" {
      UnmatchedFieldStaysEmpty(KeyField, [], f);
    }
  }

  /** The row `{"file": name, **normalized}` as laid out in the table, one
      value per entry of COLUMNS: the value under column `Name(f)` is the
      record's value for `f`. */
  function Row(file: string, r: Record): (row: seq<string>)
    requires forall f: Field :: f in r
    ensures |row| == |Columns| && Columns[0] == "file" && row[0] == file
    ensures forall f: Field :: Columns[Position(f) + 1] == Name(f) && row[Position(f) + 1] == r[f]
  {
    ColumnsAreFileThenFields();
    [file] + seq(|Fields|, i requires 0 <= i < |Fields| => r[Fields[i]])
  }

  /** A key repeated in the fallback's pairs keeps the place of its first
      occurrence, so an alias of the same field seen in between comes later
      in the dict and decides the field: with pairs `k1: a`, `k2: b`,
      `k1: c`, where `k1` and `k2` are different spellings of one field, the
      field ends up as `b`, not `c`. */
  lemma RepeatedKeyKeepsFirstPlace(select: string -> Option<Field>, f: Field,
                                   k1: string, k2: string, a: string, b: string, c: string)
    requires k1 != k2 && select(k1) == Some(f) && select(k2) == Some(f)
    ensures Fill(select, AsEntries(ToDict([(k1, a), (k2, b), (k1, c)])))[f] == Coerce(f, Text(b))
  {
    var ps := [(k1, a), (k2, b), (k1, c)];
    assert ps[..1] == [(k1, a)] && ps[..2] == [(k1, a), (k2, b)];
    assert ToDict(ps[..1]) == [(k1, a)] by {
      assert ps[..1][..0] == [];
    }
    assert ToDict(ps[..2]) == [(k1, a), (k2, b)];
    var d := ToDict(ps);
    assert d == [(k1, c), (k2, b)];
    var es := AsEntries(d);
    assert es[1] == (k2, Text(b));
    LastAliasDecides(select, es, f, 1);
  }
}
