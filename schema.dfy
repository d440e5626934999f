/**
 * The fixed shape of an extracted invoice: the ten canonical fields, the
 * table columns, and the values that flow from the tolerant parser into the
 * field normaliser.
 */
module Schema {
  import opened PyText

  /** The ten canonical fields. Name gives the exact key text. */
  datatype Field =
    | InvoiceNo | Description | Quantity | Date | UnitPrice
    | Amount | Total | Email | PhoneNumber | Address

  function Name(f: Field): string {
    match f
    case InvoiceNo => "Invoice no."
    case Description => "Description"
    case Quantity => "Quantity"
    case Date => "Date"
    case UnitPrice => "Unit price"
    case Amount => "Amount"
    case Total => "Total"
    case Email => "Email"
    case PhoneNumber => "Phone number"
    case Address => "Address"
  }

  /** The canonical fields in record order (the list `keys`). */
  const Fields: seq<Field> :=
    [InvoiceNo, Description, Quantity, Date, UnitPrice,
     Amount, Total, Email, PhoneNumber, Address]

  /** The result table's columns: the file name, then the ten fields. */
  const Columns: seq<string> :=
    ["file", "Invoice no.", "Description", "Quantity", "Date", "Unit price",
     "Amount", "Total", "Email", "Phone number", "Address"]

  /** The fields whose values go through the currency cleanup:
      "Unit price", "Amount" and "Total". */
  predicate IsMoney(f: Field) {
    f == UnitPrice || f == Amount || f == Total
  }

  /** A value of a parsed JSON object as the normaliser sees it: `None`, or
      the text `str(v)` gives for it. For a JSON string that text is the
      string itself; for numbers, booleans, lists and objects it is Python's
      rendering of them, which this model does not compute. */
  datatype FieldValue = Null | Text(s: string)

  type Entry = (string, FieldValue)

  /** What the tolerant parser hands to the normaliser: a dict, as its
      key/value pairs in iteration order, or some other JSON value. */
  datatype Parsed = NotADict | Dict(entries: seq<Entry>)

  /** An extracted record: the value of each canonical field; the key the
      source uses for field `f` is `Name(f)`. */
  type Record = map<Field, string>

  /** Where a field sits in Fields (and in the record order). */
  function Position(f: Field): (i: nat)
    ensures i < |Fields| && Fields[i] == f
  {
    match f
    case InvoiceNo => 0
    case Description => 1
    case Quantity => 2
    case Date => 3
    case UnitPrice => 4
    case Amount => 5
    case Total => 6
    case Email => 7
    case PhoneNumber => 8
    case Address => 9
  }

  /** Every field is listed in Fields, exactly once. */
  lemma FieldsListedOnce()
    ensures forall f: Field :: f in Fields
    ensures forall i :: 0 <= i < |Fields| ==> Position(Fields[i]) == i
  {
    forall f: Field ensures f in Fields {
      assert Fields[Position(f)] == f;
    }
  }

  /** The table columns are "file" followed by the field names in record
      order. */
  lemma ColumnsAreFileThenFields()
    ensures |Columns| == |Fields| + 1 && Columns[0] == "file"
    ensures forall i :: 0 <= i < |Fields| ==> Columns[i + 1] == Name(Fields[i])
  {
  }

  /** Any two canonical names differ in length or in their lower-cased first
      letter. */
  lemma NamesDiffer(f: Field, g: Field)
    requires f != g
    ensures |Name(f)| != |Name(g)| || LowerChar(Name(f)[0]) != LowerChar(Name(g)[0])
  {
  }

  /** No two canonical names lower-case to the same string: the alias table
      built from them loses no field. */
  lemma LowerNamesDistinct(f: Field, g: Field)
    requires f != g
    ensures Lower(Name(f)) != Lower(Name(g))
  {
    NamesDiffer(f, g);
    var a, b := Name(f), Name(g);
    if |a| == |b| {
      assert Lower(a)[0] == LowerChar(a[0]) && Lower(b)[0] == LowerChar(b[0]);
    }
  }

  /** A canonical name has no whitespace at either end, also once
      lower-cased. */
  lemma NameUnpadded(f: Field)
    ensures Strip(Lower(Name(f))) == Lower(Name(f))
  {
    var n := Name(f);
    var lk := Lower(n);
    assert lk[0] == LowerChar(n[0]) && lk[|lk| - 1] == LowerChar(n[|n| - 1]);
    StripUnpadded(lk);
  }
}
