/** Concrete renderings: the examples in the source's docstrings and two
    templates that show whole-string replacement rescanning substituted text.
    Literal inputs are passed as parameters so that the verifier does not
    unfold the string functions on literals. */
module Examples {
  import opened Wrappers
  import opened Decimal
  import opened Replace
  import opened Render
  import opened Escape
  import opened Summary
  import Cli

  lemma SmallPlaceholders()
    ensures Placeholder(0) == "{0}" && Placeholder(1) == "{1}" && Placeholder(2) == "{2}"
  {
  }

  lemma DocExampleValues(line: seq<string>)
    requires line == ["John", "Al Bano"]
    ensures FieldValues(5, line, Some(EscapeText)) == ["5", "John", "Al_Bano"]
  {
    assert EscapeText(line[0]) == "John";
    assert EscapeText(line[1]) == "Al_Bano";
    assert IntToDecimal(5) == "5";
  }

  /** The docstring template `mv {0}.pdf {1}-{2}.pdf`, cut into pieces. */
  const DocHead: seq<Piece> := [Text("mv "), Slot(0), Text(".pdf ")]
  const DocTail: seq<Piece> := [Slot(1), Text("-"), Slot(2), Text(".pdf")]
  const DocPieces: seq<Piece> := DocHead + DocTail

  lemma DocTemplate(cmd: string)
    requires cmd == "mv {0}.pdf {1}-{2}.pdf"
    ensures Flatten(DocPieces) == cmd
  {
    FlattenAppend(DocHead, DocTail);
    SmallPlaceholders();
  }

  lemma DocTemplateBraceFree()
    ensures TextsBraceFree(DocPieces)
  {
  }

  lemma DocHeadFilled()
    ensures Fill(DocHead, ["5", "John", "Al_Bano"], 3) == "mv 5.pdf "
  {
  }

  lemma DocTailFilled()
    ensures Fill(DocTail, ["5", "John", "Al_Bano"], 3) == "John-Al_Bano.pdf"
  {
  }

  lemma DocFilled(vals: seq<string>)
    requires vals == ["5", "John", "Al_Bano"]
    ensures Fill(DocPieces, vals, 3) == "mv 5.pdf John-Al_Bano.pdf"
  {
    FillAppend(DocHead, DocTail, vals, 3);
    DocHeadFilled();
    DocTailFilled();
  }

  /** The docstring example of `inject_fields`: the row number is not escaped,
      the fields are. */
  lemma InjectFieldsDocExample(cmd: string, line: seq<string>)
    requires cmd == "mv {0}.pdf {1}-{2}.pdf" && line == ["John", "Al Bano"]
    ensures Injected(cmd, 5, line, Some(EscapeText)) == "mv 5.pdf John-Al_Bano.pdf"
  {
    DocTemplate(cmd);
    DocTemplateBraceFree();
    Cli.EscapedRenderFills(DocPieces, 5, line);
    DocExampleValues(line);
    DocFilled(FieldValues(5, line, Some(EscapeText)));
  }

  /** A field whose text is `{2}` is replaced again by field 2. */
  lemma InjectFieldsRescanExample(cmd: string, line: seq<string>)
    requires cmd == "{1}" && line == ["{2}", "x"]
    ensures Injected(cmd, 1, line, None) == "x"
  {
    var vals := FieldValues(1, line, None);
    assert Placeholder(1) == "{1}" && Placeholder(2) == "{2}";
    ReplaceFromRescans(vals, 1, 0);
    ReplaceFromRescans(vals, 2, 2);
  }

  /** The template `{{0}}` for row 1 becomes `{1}` after the first step, which
      the next step replaces by field 1: the row number itself is lost. */
  lemma InjectFieldsRowNumberRewritten(cmd: string, line: seq<string>)
    requires cmd == "{{0}}" && line == ["a"]
    ensures Injected(cmd, 1, line, None) == "a"
  {
    var p0, p1 := Placeholder(0), Placeholder(1);
    var vals := FieldValues(1, line, None);
    assert p0 == "{0}" && p1 == "{1}" && vals[0] == "1";
    assert cmd == "{" + p0 + "}";
    assert !MatchAt("{" + p0 + "}", p0, 0);
    ReplaceAllLeftmost("{", "}", p0, "1");
    ReplaceAllNoOpenBrace("}", p0, "1");
    assert ReplaceAll(cmd, p0, vals[0]) == p1;
    ReplaceFromRescans(vals, 1, 1);
  }

  lemma DocExampleEntries()
    ensures Entry(0, LineNumberLabel) == "{0}=(line number)"
    ensures Entry(1, "Name") == "{1}=Name" && Entry(2, "Surname") == "{2}=Surname"
  {
    SmallPlaceholders();
  }

  /** The summary for a header of two fields, entry by entry. */
  lemma FieldSummaryOfTwo(a: string, b: string)
    ensures FieldSummary([a, b])
            == "Fields: " + Entry(0, LineNumberLabel) + " " + Entry(1, a) + " " + Entry(2, b)
  {
    var none: seq<string> := [];
    assert none + [a] == [a] && [a] + [b] == [a, b];
    FieldSummarySnoc(none, a);
    FieldSummarySnoc([a], b);
    FieldSummaryNoFields();
  }

  /** The docstring example of `print_available_fields`, with the "Fields: "
      prefix that the function actually returns. */
  lemma FieldSummaryDocExample(fields: seq<string>)
    requires fields == ["Name", "Surname"]
    ensures FieldSummary(fields) == "Fields: {0}=(line number) {1}=Name {2}=Surname"
  {
    assert fields == [fields[0], fields[1]];
    FieldSummaryOfTwo(fields[0], fields[1]);
    DocExampleEntries();
  }
}
