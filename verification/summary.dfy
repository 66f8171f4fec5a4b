/** `print_available_fields`: the one-line summary of the placeholders a
    template can use, built from the header row. */
module Summary {
  import opened Replace

  /** Python's `sep.join(parts)`. */
  function Join(sep: string, parts: seq<string>): string
    decreases |parts|
  {
    if |parts| == 0 then ""
    else if |parts| == 1 then parts[0]
    else parts[0] + sep + Join(sep, parts[1..])
  }

  lemma {:induction false} JoinSnoc(sep: string, parts: seq<string>, p: string)
    requires |parts| > 0
    ensures Join(sep, parts + [p]) == Join(sep, parts) + sep + p
    decreases |parts|
  {
    if |parts| > 1 {
      assert (parts + [p])[1..] == parts[1..] + [p];
      JoinSnoc(sep, parts[1..], p);
    } else {
      assert (parts + [p])[1..] == [p];
    }
  }

  const LineNumberLabel := "(line number)"

  /** The entry `{i}=name`. */
  function Entry(i: nat, name: string): string {
    Placeholder(i) + "=" + name
  }

  /** The entries for `['(line number)', *fields]`, numbered from 0. */
  function Entries(fields: seq<string>): (es: seq<string>)
    ensures |es| == |fields| + 1
    ensures es[0] == Entry(0, LineNumberLabel)
    ensures forall i :: 1 <= i < |es| ==> es[i] == Entry(i, fields[i - 1])
  {
    var names := [LineNumberLabel] + fields;
    seq(|names|, i requires 0 <= i < |names| => Entry(i, names[i]))
  }

  function FieldSummary(fields: seq<string>): (r: string)
    ensures |r| > 8 && r[..8] == "Fields: "
  {
    "Fields: " + Join(" ", Entries(fields))
  }

  /** With no field names, only the line-number entry is listed. */
  lemma FieldSummaryNoFields()
    ensures FieldSummary([]) == "Fields: " + Entry(0, LineNumberLabel)
  {
    assert Entries([]) == [Entry(0, LineNumberLabel)];
  }

  /** Each further header field adds one space-separated entry at the end,
      numbered one past the number of fields before it. */
  lemma FieldSummarySnoc(fields: seq<string>, name: string)
    ensures FieldSummary(fields + [name])
            == FieldSummary(fields) + " " + Entry(|fields| + 1, name)
  {
    assert Entries(fields + [name]) == Entries(fields) + [Entry(|fields| + 1, name)];
    JoinSnoc(" ", Entries(fields), Entry(|fields| + 1, name));
  }
}
