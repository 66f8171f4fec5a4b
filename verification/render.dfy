/** `inject_fields`: renders the command template for one row. Index 0 holds
    the row number, index i >= 1 holds field i-1 (after the optional field
    function), and each placeholder `{i}` is replaced, in ascending order of i,
    by whole-string replacement. */
module Render {
  import opened Wrappers
  import opened Decimal
  import opened Replace

  /** The field function when one is given, the identity otherwise. */
  function Apply(fieldFunc: Option<string -> string>, field: string): string {
    if fieldFunc.Some? then fieldFunc.value(field) else field
  }

  /** The values substituted for `{0}`, `{1}`, ...: the row number as decimal
      text, then the fields. Only the fields pass through the field function. */
  function FieldValues(rowN: int, line: seq<string>, fieldFunc: Option<string -> string>): (vals: seq<string>)
    ensures |vals| == |line| + 1
    ensures vals[0] == IntToDecimal(rowN)
    ensures forall i :: 1 <= i < |vals| ==> vals[i] == Apply(fieldFunc, line[i - 1])
  {
    [IntToDecimal(rowN)] + seq(|line|, i requires 0 <= i < |line| => Apply(fieldFunc, line[i]))
  }

  /** The replacement steps for indices i, i+1, ..., |vals|-1 applied in order
      to `s`: what the source's loop still has to do once it reaches index i. */
  function ReplaceFrom(s: string, vals: seq<string>, i: nat): string
    requires i <= |vals|
    decreases |vals| - i
  {
    if i == |vals| then s
    else ReplaceFrom(ReplaceAll(s, Placeholder(i), vals[i]), vals, i + 1)
  }

  /** Text holding none of the placeholders still to be processed is left
      unchanged by the remaining steps. */
  lemma {:induction false} ReplaceFromAbsent(s: string, vals: seq<string>, i: nat)
    requires i <= |vals|
    requires forall j :: i <= j < |vals| ==> !Contains(s, Placeholder(j))
    ensures ReplaceFrom(s, vals, i) == s
    decreases |vals| - i
  {
    if i < |vals| {
      ReplaceAllAbsent(s, Placeholder(i), vals[i]);
      ReplaceFromAbsent(s, vals, i + 1);
    }
  }

  /** The rendered command for one row. */
  function Injected(cmd: string, rowN: int, line: seq<string>, fieldFunc: Option<string -> string>): string {
    ReplaceFrom(cmd, FieldValues(rowN, line, fieldFunc), 0)
  }

  method InjectFields(cmd: string, rowN: int, line: seq<string>, fieldFunc: Option<string -> string>)
    returns (r: string)
    ensures r == Injected(cmd, rowN, line, fieldFunc)
  {
    var fields := FieldValues(rowN, line, fieldFunc);
    r := cmd;
    var i := 0;
    while i < |fields|
      invariant i <= |fields|
      invariant ReplaceFrom(r, fields, i) == ReplaceFrom(cmd, fields, 0)
    {
      r := ReplaceAll(r, Placeholder(i), fields[i]);
      i := i + 1;
    }
  }

  /** A placeholder whose index is past the last value is never replaced: it
      stays where it is, and the text on either side of it is rendered as if
      the other side were not there. */
  lemma {:induction false} ReplaceFromKeepsOutOfRange(x: string, y: string, vals: seq<string>, i: nat, k: nat)
    requires i <= |vals| <= k
    ensures ReplaceFrom(x + Placeholder(k) + y, vals, i)
            == ReplaceFrom(x, vals, i) + Placeholder(k) + ReplaceFrom(y, vals, i)
    decreases |vals| - i
  {
    if i < |vals| {
      PlaceholderInjective(i, k);
      ReplaceAllKeepsPlaceholder(x, Placeholder(k), y, Placeholder(i), vals[i]);
      ReplaceFromKeepsOutOfRange(ReplaceAll(x, Placeholder(i), vals[i]),
                                 ReplaceAll(y, Placeholder(i), vals[i]), vals, i + 1, k);
    }
  }

  lemma InjectedKeepsOutOfRange(x: string, y: string, rowN: int, line: seq<string>,
                                fieldFunc: Option<string -> string>, k: nat)
    requires k > |line|
    ensures Injected(x + Placeholder(k) + y, rowN, line, fieldFunc)
            == Injected(x, rowN, line, fieldFunc) + Placeholder(k) + Injected(y, rowN, line, fieldFunc)
  {
    ReplaceFromKeepsOutOfRange(x, y, FieldValues(rowN, line, fieldFunc), 0, k);
  }

  /** Text substituted for `{i}` is scanned again by every later step: a
      template that is exactly `{i}` renders as value i rewritten by the steps
      for indices i+1, i+2, ... */
  lemma {:induction false} ReplaceFromRescans(vals: seq<string>, i: nat, j: nat)
    requires j <= i < |vals|
    ensures ReplaceFrom(Placeholder(i), vals, j) == ReplaceFrom(vals[i], vals, i + 1)
    decreases i - j
  {
    var p := Placeholder(i);
    if j < i {
      PlaceholderInjective(i, j);
      PlaceholderNotInOther(p, Placeholder(j));
      ReplaceAllAbsent(p, Placeholder(j), vals[j]);
      ReplaceFromRescans(vals, i, j + 1);
    } else {
      ReplaceAllWhole(p, vals[i]);
    }
  }

  /** Decimal text holds no braces, so it contains no placeholder. */
  lemma DecimalHasNoPlaceholder(n: int, j: nat)
    ensures !Contains(IntToDecimal(n), Placeholder(j))
  {
    var d, p := IntToDecimal(n), Placeholder(j);
    forall i: nat ensures !MatchAt(d, p, i) {
      if i + |p| <= |d| {
        assert d[i..i + |p|][0] == d[i] != '{';
      }
    }
  }

  /** A template that is just `{0}` renders as the decimal text of the row
      number, whatever the fields and the field function are. */
  lemma InjectedRowNumber(rowN: int, line: seq<string>, fieldFunc: Option<string -> string>)
    ensures Injected(Placeholder(0), rowN, line, fieldFunc) == IntToDecimal(rowN)
  {
    var vals := FieldValues(rowN, line, fieldFunc);
    ReplaceFromRescans(vals, 0, 0);
    forall j | 1 <= j < |vals| ensures !Contains(vals[0], Placeholder(j)) {
      DecimalHasNoPlaceholder(rowN, j);
    }
    ReplaceFromAbsent(vals[0], vals, 1);
  }

  /** A template seen as literal text and placeholders. */
  datatype Piece = Text(text: string) | Slot(index: nat)

  function Flatten(ps: seq<Piece>): string
    decreases |ps|
  {
    if |ps| == 0 then ""
    else (match ps[0] case Text(s) => s case Slot(k) => Placeholder(k)) + Flatten(ps[1..])
  }

  /** The template with every slot below `n` filled with its value and every
      other slot left as its placeholder: the reference for rendering. */
  function Fill(ps: seq<Piece>, vals: seq<string>, n: nat): string
    requires n <= |vals|
    decreases |ps|
  {
    if |ps| == 0 then ""
    else
      (match ps[0]
       case Text(s) => s
       case Slot(k) => if k < n then vals[k] else Placeholder(k))
      + Fill(ps[1..], vals, n)
  }

  predicate TextsBraceFree(ps: seq<Piece>) {
    forall j :: 0 <= j < |ps| && ps[j].Text? ==> NoOpenBrace(ps[j].text)
  }

  predicate ValuesBraceFree(vals: seq<string>) {
    forall j :: 0 <= j < |vals| ==> NoOpenBrace(vals[j])
  }

  lemma {:induction false} FlattenAppend(ps: seq<Piece>, qs: seq<Piece>)
    ensures Flatten(ps + qs) == Flatten(ps) + Flatten(qs)
    decreases |ps|
  {
    if |ps| > 0 {
      assert (ps + qs)[1..] == ps[1..] + qs;
      FlattenAppend(ps[1..], qs);
    } else {
      assert ps + qs == qs;
    }
  }

  lemma {:induction false} FillAppend(ps: seq<Piece>, qs: seq<Piece>, vals: seq<string>, n: nat)
    requires n <= |vals|
    ensures Fill(ps + qs, vals, n) == Fill(ps, vals, n) + Fill(qs, vals, n)
    decreases |ps|
  {
    if |ps| > 0 {
      assert (ps + qs)[1..] == ps[1..] + qs;
      FillAppend(ps[1..], qs, vals, n);
    } else {
      assert ps + qs == qs;
    }
  }

  lemma {:induction false} FillNothing(ps: seq<Piece>, vals: seq<string>)
    ensures Fill(ps, vals, 0) == Flatten(ps)
    decreases |ps|
  {
    if |ps| > 0 {
      FillNothing(ps[1..], vals);
    }
  }

  /** Step n of the renderer turns the template filled below n into the
      template filled below n+1. */
  lemma {:induction false} FillStep(ps: seq<Piece>, vals: seq<string>, n: nat)
    requires n < |vals| && TextsBraceFree(ps) && ValuesBraceFree(vals)
    ensures ReplaceAll(Fill(ps, vals, n), Placeholder(n), vals[n]) == Fill(ps, vals, n + 1)
    decreases |ps|
  {
    var pat := Placeholder(n);
    if |ps| == 0 {
      ReplaceAllNoOpenBrace("", pat, vals[n]);
    } else {
      var rest := Fill(ps[1..], vals, n);
      assert TextsBraceFree(ps[1..]) by {
        forall j | 0 <= j < |ps| - 1 && ps[1..][j].Text? ensures NoOpenBrace(ps[1..][j].text) {
          assert ps[1..][j] == ps[j + 1];
        }
      }
      FillStep(ps[1..], vals, n);
      match ps[0]
      case Text(s) =>
        assert NoOpenBrace(ps[0].text);
        ReplaceAllSkipText(s, rest, pat, vals[n]);
      case Slot(k) =>
        if k < n {
          ReplaceAllSkipText(vals[k], rest, pat, vals[n]);
        } else if k == n {
          ReplaceAllPrefix(rest, pat, vals[n]);
        } else {
          PlaceholderInjective(k, n);
          ReplaceAllSkipsPlaceholder(Placeholder(k), rest, pat, vals[n]);
        }
    }
  }

  lemma {:induction false} ReplaceFromFill(ps: seq<Piece>, vals: seq<string>, n: nat)
    requires n <= |vals| && TextsBraceFree(ps) && ValuesBraceFree(vals)
    ensures ReplaceFrom(Fill(ps, vals, n), vals, n) == Fill(ps, vals, |vals|)
    decreases |vals| - n
  {
    if n < |vals| {
      FillStep(ps, vals, n);
      ReplaceFromFill(ps, vals, n + 1);
    }
  }

  /** When neither the template's literal text nor any substituted value holds
      a '{', no rescanning can happen: rendering puts each value in place of
      its slot and leaves slots past the last value as placeholders. */
  lemma InjectedFills(ps: seq<Piece>, rowN: int, line: seq<string>, fieldFunc: Option<string -> string>)
    requires TextsBraceFree(ps)
    requires forall i :: 0 <= i < |line| ==> NoOpenBrace(Apply(fieldFunc, line[i]))
    ensures Injected(Flatten(ps), rowN, line, fieldFunc)
            == Fill(ps, FieldValues(rowN, line, fieldFunc), |line| + 1)
  {
    var vals := FieldValues(rowN, line, fieldFunc);
    assert ValuesBraceFree(vals) by {
      var d := IntToDecimal(rowN);
      assert forall j :: 0 <= j < |d| ==> d[j] != '{';
      assert forall j :: 1 <= j < |vals| ==> vals[j] == Apply(fieldFunc, line[j - 1]);
    }
    FillNothing(ps, vals);
    ReplaceFromFill(ps, vals, 0);
  }
}
