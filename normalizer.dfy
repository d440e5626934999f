/**
 * `_postprocess_json_fields`: maps whatever the tolerant parser recovered onto
 * the ten canonical fields.
 *
 * The record starts with every canonical field set to "". Input that is not
 * a dict leaves it so. Otherwise the dict's pairs are visited in order; a key
 * counts when its lower-cased, stripped form is in the alias table (each
 * canonical name lower-cased), and then overwrites that field with the
 * coerced value, so the last matching pair wins. `None` becomes "", anything
 * else its stripped text; money fields keep only digits, `.` and `-`; the
 * phone number keeps only digits.
 *
 * PostprocessJsonFields is the loop. Fill states the same mapping field by
 * field (the last pair that aliases a field decides it), for any alias
 * table; Normalize is Fill with the source's table, and the lemmas below are
 * about these two.
 */
module Normalizer {
  import opened Wrappers
  import opened PyText
  import opened Currency
  import opened Schema

  // ---------------------------------------------------------------------
  // Alias lookup

  /** `aliases = {k.lower(): k for k in keys}`. */
  function AliasTable(): (t: map<string, Field>)
    ensures forall f: Field :: Lower(Name(f)) in t && t[Lower(Name(f))] == f
    ensures forall lk :: lk in t ==> Lower(Name(t[lk])) == lk
  {
    forall f: Field, g: Field | f != g ensures Lower(Name(f)) != Lower(Name(g)) {
      LowerNamesDistinct(f, g);
    }
    map f: Field :: Lower(Name(f)) := f
  }

  /** `aliases.get(str(k).lower().strip())`. */
  function Lookup(aliases: map<string, Field>, k: string): (r: Option<Field>)
    ensures r.Some? <==> Strip(Lower(k)) in aliases
    ensures r.Some? ==> aliases[Strip(Lower(k))] == r.value
  {
    var lk := Strip(Lower(k));
    if lk in aliases then Some(aliases[lk]) else None
  }

  /** The field an incoming key selects, with the source's alias table. */
  function KeyField(k: string): (r: Option<Field>)
    ensures r.Some? ==> Strip(Lower(k)) == Lower(Name(r.value))
    ensures r.None? ==> forall f: Field :: Strip(Lower(k)) != Lower(Name(f))
  {
    Lookup(AliasTable(), k)
  }

  /** An incoming key selects a field exactly when its lower-cased, stripped
      form equals that field's name lower-cased. */
  lemma AliasIff(k: string, f: Field)
    ensures KeyField(k) == Some(f) <==> Strip(Lower(k)) == Lower(Name(f))
  {
  }

  /** Every canonical name selects its own field. */
  lemma NameSelectsItself(f: Field)
    ensures KeyField(Name(f)) == Some(f)
  {
    NameUnpadded(f);
    AliasIff(Name(f), f);
  }

  // ---------------------------------------------------------------------
  // Value coercion

  /** The text `str(v)` gives before coercion ("" for `None`). */
  function RawText(v: FieldValue): string {
    if v.Null? then "" else v.s
  }

  /** The coercion applied to a value assigned to field `f`. */
  function Coerce(f: Field, v: FieldValue): (r: string)
    ensures v.Null? ==> r == ""
    ensures IsMoney(f) ==> forall i :: 0 <= i < |r| ==> IsMoneyChar(r[i])
    ensures f == PhoneNumber ==> forall i :: 0 <= i < |r| ==> IsDigit(r[i])
  {
    var val := if v.Null? then "" else Strip(v.s);
    FilterKeeps(IsDigit, val);
    if IsMoney(f) then StripCurrencySymbols(val)
    else if f == PhoneNumber then Filter(IsDigit, val)
    else val
  }

  /** What a coerced value is: `None` gives ""; money fields keep exactly the
      raw text's digits, dots and minus signs; the phone number keeps exactly
      its digits; every other field is the stripped text. */
  lemma CoerceMeaning(f: Field, v: FieldValue)
    ensures v.Null? ==> Coerce(f, v) == ""
    ensures IsMoney(f) ==> Coerce(f, v) == Filter(IsMoneyChar, RawText(v))
    ensures f == PhoneNumber ==> Coerce(f, v) == Filter(IsDigit, RawText(v))
    ensures !IsMoney(f) && f != PhoneNumber ==> Coerce(f, v) == Strip(RawText(v))
  {
    var val := if v.Null? then "" else Strip(v.s);
    if IsMoney(f) {
      StripCurrencyIsMoneyFilter(val);
      FilterStrip(IsMoneyChar, RawText(v));
    } else if f == PhoneNumber {
      FilterStrip(IsDigit, RawText(v));
    }
  }

  /** The shape a field value has once normalised. */
  ghost predicate NormalFor(f: Field, x: string) {
    if IsMoney(f) then forall i :: 0 <= i < |x| ==> IsMoneyChar(x[i])
    else if f == PhoneNumber then forall i :: 0 <= i < |x| ==> IsDigit(x[i])
    else Strip(x) == x
  }

  lemma CoerceIsNormal(f: Field, v: FieldValue)
    ensures NormalFor(f, Coerce(f, v))
  {
    var val := if v.Null? then "" else Strip(v.s);
    if IsMoney(f) {
    } else if f == PhoneNumber {
      FilterKeeps(IsDigit, val);
    } else if v.Text? {
      StripIdempotent(v.s);
    }
  }

  /** Coercing a value that is already normal gives it back. */
  lemma CoerceNormalIsIdentity(f: Field, x: string)
    requires NormalFor(f, x)
    ensures Coerce(f, Text(x)) == x
  {
    CoerceMeaning(f, Text(x));
    if IsMoney(f) {
      FilterKeepsAll(IsMoneyChar, x);
    } else if f == PhoneNumber {
      FilterKeepsAll(IsDigit, x);
    }
  }

  /** Coercion is idempotent. */
  lemma CoerceIdempotent(f: Field, v: FieldValue)
    ensures Coerce(f, Text(Coerce(f, v))) == Coerce(f, v)
  {
    CoerceIsNormal(f, v);
    CoerceNormalIsIdentity(f, Coerce(f, v));
  }

  // ---------------------------------------------------------------------
  // The record, field by field. `select` is the key-to-field lookup; the
  // lemmas here hold whatever it is.

  /** The value of the last pair whose key selects `f`, if any. */
  function LastValueFor(select: string -> Option<Field>, es: seq<Entry>, f: Field): Option<FieldValue> {
    if es == [] then None
    else if select(es[|es| - 1].0) == Some(f) then Some(es[|es| - 1].1)
    else LastValueFor(select, es[..|es| - 1], f)
  }

  function FieldFrom(select: string -> Option<Field>, es: seq<Entry>, f: Field): string {
    match LastValueFor(select, es, f)
    case None => ""
    case Some(v) => Coerce(f, v)
  }

  /** A complete, normalised record: every canonical field present, each
      value in normal form for its field. */
  ghost predicate IsCanonicalRecord(r: Record) {
    (forall f: Field :: f in r) && forall f :: f in r ==> NormalFor(f, r[f])
  }

  /** The record built from the pairs `es`, stated per field. */
  function Fill(select: string -> Option<Field>, es: seq<Entry>): (r: Record)
    ensures forall f: Field :: f in r
  {
    map f: Field :: FieldFrom(select, es, f)
  }

  /** Every field of the built record is in normal form. */
  lemma FillIsCanonical(select: string -> Option<Field>, es: seq<Entry>)
    ensures IsCanonicalRecord(Fill(select, es))
  {
    var r := Fill(select, es);
    forall f | f in r ensures NormalFor(f, r[f]) {
      if LastValueFor(select, es, f).Some? {
        CoerceIsNormal(f, LastValueFor(select, es, f).value);
      }
    }
  }

  /** The record `_postprocess_json_fields` returns. */
  function Normalize(d: Parsed): (r: Record)
    ensures IsCanonicalRecord(r)
    ensures d.NotADict? ==> forall f :: f in r ==> r[f] == ""
  {
    var es := if d.NotADict? then [] else d.entries;
    FillIsCanonical(KeyField, es);
    Fill(KeyField, es)
  }

  /** One more pair changes the field it selects, and only that field. */
  lemma FieldFromSnoc(select: string -> Option<Field>, es: seq<Entry>, e: Entry, f: Field)
    ensures FieldFrom(select, es + [e], f) ==
      if select(e.0) == Some(f) then Coerce(f, e.1) else FieldFrom(select, es, f)
  {
    var es' := es + [e];
    assert es'[|es'| - 1] == e;
    assert es'[..|es'| - 1] == es;
  }

  /** Appending one pair: a pair whose key selects no field changes nothing;
      otherwise it overwrites its field, whatever an earlier pair put there. */
  lemma FillSnoc(select: string -> Option<Field>, es: seq<Entry>, e: Entry)
    ensures select(e.0).None? ==> Fill(select, es + [e]) == Fill(select, es)
    ensures select(e.0).Some? ==>
      Fill(select, es + [e]) == Fill(select, es)[select(e.0).value := Coerce(select(e.0).value, e.1)]
  {
    if select(e.0).None? {
      FillSnocUnselected(select, es, e);
    } else {
      FillSnocSelected(select, es, e, select(e.0).value);
    }
  }

  lemma FillSnocUnselected(select: string -> Option<Field>, es: seq<Entry>, e: Entry)
    requires select(e.0).None?
    ensures Fill(select, es + [e]) == Fill(select, es)
  {
    var before, after := Fill(select, es), Fill(select, es + [e]);
    forall f ensures after[f] == before[f] {
      FieldFromSnoc(select, es, e, f);
    }
  }

  lemma FillSnocSelected(select: string -> Option<Field>, es: seq<Entry>, e: Entry, g: Field)
    requires select(e.0) == Some(g)
    ensures Fill(select, es + [e]) == Fill(select, es)[g := Coerce(g, e.1)]
  {
    var before, after := Fill(select, es), Fill(select, es + [e]);
    var expected := before[g := Coerce(g, e.1)];
    forall f ensures after[f] == expected[f] {
      FieldFromSnoc(select, es, e, f);
    }
  }

  /** FillSnoc for the prefixes a loop over `es` visits. */
  lemma FillStep(select: string -> Option<Field>, es: seq<Entry>, i: nat)
    requires i < |es|
    ensures select(es[i].0).None? ==> Fill(select, es[..i + 1]) == Fill(select, es[..i])
    ensures select(es[i].0).Some? ==>
      Fill(select, es[..i + 1]) == Fill(select, es[..i])[select(es[i].0).value := Coerce(select(es[i].0).value, es[i].1)]
  {
    assert es[..i + 1] == es[..i] + [es[i]];
    FillSnoc(select, es[..i], es[i]);
  }

  /** The last pair whose key selects `f` is the one LastValueFor finds. */
  lemma {:induction false} LastValueForIsLast(select: string -> Option<Field>, es: seq<Entry>, f: Field, j: nat)
    requires j < |es| && select(es[j].0) == Some(f)
    requires forall i :: j < i < |es| ==> select(es[i].0) != Some(f)
    ensures LastValueFor(select, es, f) == Some(es[j].1)
    decreases |es|
  {
    if j < |es| - 1 {
      var front := es[..|es| - 1];
      assert front[j] == es[j];
      assert forall i :: j < i < |front| ==> front[i] == es[i];
      LastValueForIsLast(select, front, f, j);
    }
  }

  /** With no pair selecting `f`, LastValueFor finds nothing. */
  lemma {:induction false} LastValueForNone(select: string -> Option<Field>, es: seq<Entry>, f: Field)
    requires forall i :: 0 <= i < |es| ==> select(es[i].0) != Some(f)
    ensures LastValueFor(select, es, f).None?
    decreases |es|
  {
    if es != [] {
      var front := es[..|es| - 1];
      assert forall i :: 0 <= i < |front| ==> front[i] == es[i];
      LastValueForNone(select, front, f);
    }
  }

  /** The last pair whose key selects a field decides that field. */
  lemma LastAliasDecides(select: string -> Option<Field>, es: seq<Entry>, f: Field, j: nat)
    requires j < |es| && select(es[j].0) == Some(f)
    requires forall i :: j < i < |es| ==> select(es[i].0) != Some(f)
    ensures Fill(select, es)[f] == Coerce(f, es[j].1)
  {
    LastValueForIsLast(select, es, f, j);
  }

  /** A field no incoming key selects stays "". */
  lemma UnmatchedFieldStaysEmpty(select: string -> Option<Field>, es: seq<Entry>, f: Field)
    requires forall i :: 0 <= i < |es| ==> select(es[i].0) != Some(f)
    ensures Fill(select, es)[f] == ""
  {
    LastValueForNone(select, es, f);
  }

  lemma {:induction false} LastValueForSkips(select: string -> Option<Field>, a: seq<Entry>, e: Entry, b: seq<Entry>, f: Field)
    requires select(e.0) != Some(f)
    ensures LastValueFor(select, a + [e] + b, f) == LastValueFor(select, a + b, f)
    decreases |b|
  {
    if b == [] {
      assert (a + [e] + b)[..|a| + 1 - 1] == a;
      assert a + b == a;
    } else {
      var b' := b[..|b| - 1];
      assert (a + [e] + b)[..|a + [e] + b| - 1] == a + [e] + b';
      assert (a + b)[..|a + b| - 1] == a + b';
      LastValueForSkips(select, a, e, b', f);
    }
  }

  /** A pair whose key selects no field is ignored, wherever it sits in the
      dict. */
  lemma UnknownKeyIgnored(select: string -> Option<Field>, a: seq<Entry>, e: Entry, b: seq<Entry>)
    requires select(e.0).None?
    ensures Fill(select, a + [e] + b) == Fill(select, a + b)
  {
    forall f: Field
      ensures LastValueFor(select, a + [e] + b, f) == LastValueFor(select, a + b, f)
    {
      LastValueForSkips(select, a, e, b, f);
    }
  }

  // ---------------------------------------------------------------------
  // The loop and its fixed point

  /** `_postprocess_json_fields`: pre-fill, then overwrite field by field. */
  method PostprocessJsonFields(d: Parsed) returns (out: Record)
    ensures out == Normalize(d)
    ensures IsCanonicalRecord(out)
  {
    FieldsListedOnce();
    out := map f | f in Fields :: "";
    if d.NotADict? {
      return;
    }
    var aliases := AliasTable();
    var es := d.entries;
    assert out == Fill(KeyField, es[..0]);
    for i := 0 to |es|
      invariant out == Fill(KeyField, es[..i])
    {
      var (k, v) := es[i];
      var std := Lookup(aliases, k);
      FillStep(KeyField, es, i);
      if std.Some? {
        var val := if v.Null? then "" else Strip(v.s);
        if IsMoney(std.value) {
          val := StripCurrencySymbols(val);
        } else if std.value == PhoneNumber {
          val := Filter(IsDigit, val);
        }
        assert val == Coerce(std.value, v);
        out := out[std.value := val];
      }
    }
    assert es[..|es|] == es;
  }

  /** The record as the dict the source returns, in canonical key order. */
  function RecordEntries(r: Record): (es: seq<Entry>)
    requires forall f: Field :: f in r
    ensures |es| == |Fields|
    ensures forall i :: 0 <= i < |es| ==> es[i] == (Name(Fields[i]), Text(r[Fields[i]]))
  {
    seq(|Fields|, i requires 0 <= i < |Fields| => (Name(Fields[i]), Text(r[Fields[i]])))
  }

  /** Each field of a normalised record survives a second pass: its own
      name is the last key selecting it, and its value is already normal. */
  lemma FixedPointAt(r: Record, f: Field)
    requires IsCanonicalRecord(r)
    ensures Fill(KeyField, RecordEntries(r))[f] == r[f]
  {
    var es := RecordEntries(r);
    FieldsListedOnce();
    var j := Position(f);
    NameSelectsItself(f);
    forall i | j < i < |es| ensures KeyField(es[i].0) != Some(f) {
      NameSelectsItself(Fields[i]);
    }
    LastAliasDecides(KeyField, es, f, j);
    CoerceNormalIsIdentity(f, r[f]);
  }

  /** Feeding a normalised record back in returns it unchanged. */
  lemma NormalizeFixedPoint(r: Record)
    requires IsCanonicalRecord(r)
    ensures Normalize(Dict(RecordEntries(r))) == r
  {
    var out := Fill(KeyField, RecordEntries(r));
    assert forall f: Field :: f in out && f in r;
    forall f: Field ensures out[f] == r[f] {
      FixedPointAt(r, f);
    }
    assert out == r;
  }

  /** Normalising twice is normalising once. */
  lemma NormalizeIdempotent(d: Parsed)
    ensures Normalize(Dict(RecordEntries(Normalize(d)))) == Normalize(d)
  {
    NormalizeFixedPoint(Normalize(d));
  }
}
