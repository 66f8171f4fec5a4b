/** `main`: prints the field summary when no command is given; otherwise
    previews the rendered commands and asks for confirmation (unless `--yes`),
    then runs the commands in row order, stopping at the first nonzero
    return code unless `--force` is set.

    Running a command is an oracle: the k-th command actually run returns
    `codes[k]`. The file is read once and the same rows serve both the
    preview pass and the execution pass. */
module Cli {
  import opened Wrappers
  import opened Decimal
  import opened Escape
  import opened Summary
  import opened Replace
  import opened Render
  import opened Rows

  /** The parsed command line: the optional template and the three flags. */
  datatype Options = Options(command: Option<string>, yes: bool, force: bool, escape: bool)

  /** What a run of the tool did: its exit status, the commands run (in
      order), the lines printed on standard output and on standard error. */
  datatype Outcome = Outcome(status: int, executed: seq<string>, stdout: seq<string>, stderr: seq<string>)

  /** The answer to `Perform (y/N)? ` that confirms. */
  predicate Confirmed(answer: string) {
    answer == "y" || answer == "Y"
  }

  /** Prefix of the line echoed before each command runs; the source text
      holds the two characters U+00C2 U+00BB before the space. */
  const EchoPrefix := "\U{C2}\U{BB} "

  function Echo(cmds: seq<string>): (lines: seq<string>)
    ensures |lines| == |cmds|
    ensures forall k :: 0 <= k < |cmds| ==> lines[k] == EchoPrefix + cmds[k]
  {
    seq(|cmds|, k requires 0 <= k < |cmds| => EchoPrefix + cmds[k])
  }

  /** Running one more command adds one echo line at the end. */
  lemma EchoSnoc(cmds: seq<string>, c: string)
    ensures Echo(cmds + [c]) == Echo(cmds) + [EchoPrefix + c]
  {
    assert forall k :: 0 <= k < |cmds| ==> (cmds + [c])[k] == cmds[k];
  }

  function AbortMessage(code: int): string {
    "tsvcmd: process returned code: " + IntToDecimal(code) + ". Abort."
  }

  /** Index of the first nonzero return code, or |codes| when all are zero. */
  function FirstFailure(codes: seq<int>): (k: nat)
    ensures k <= |codes|
    ensures forall j :: 0 <= j < k ==> codes[j] == 0
    ensures k < |codes| ==> codes[k] != 0
    decreases |codes|
  {
    if |codes| == 0 then 0
    else if codes[0] != 0 then 0
    else 1 + FirstFailure(codes[1..])
  }

  /** FirstFailure finds the one index that is nonzero after a run of zeros. */
  lemma FirstFailureAt(codes: seq<int>, i: nat)
    requires i < |codes| && codes[i] != 0
    requires forall j :: 0 <= j < i ==> codes[j] == 0
    ensures FirstFailure(codes) == i
  {
  }

  lemma FirstFailureNone(codes: seq<int>)
    requires forall j :: 0 <= j < |codes| ==> codes[j] == 0
    ensures FirstFailure(codes) == |codes|
  {
  }

  /** The execution pass: echo and run each command in order; a nonzero return
      code aborts with status 1 unless `force` is set. */
  method RunCommands(cmds: seq<string>, codes: seq<int>, force: bool)
    returns (status: int, executed: seq<string>, stdout: seq<string>, stderr: seq<string>)
    requires |cmds| <= |codes|
    ensures stdout == Echo(executed)
    ensures status == 1 <==> !force && exists j :: 0 <= j < |cmds| && codes[j] != 0
    ensures status == 0 || status == 1
    ensures force ==> executed == cmds && stderr == []
    ensures !force ==>
      var k := FirstFailure(codes[..|cmds|]);
      if k < |cmds| then executed == cmds[..k + 1] && stderr == [AbortMessage(codes[k])]
      else executed == cmds && stderr == []
  {
    executed, stdout, stderr := [], [], [];
    var i := 0;
    while i < |cmds|
      invariant i <= |cmds|
      invariant executed == cmds[..i]
      invariant stdout == Echo(executed)
      invariant !force ==> forall j :: 0 <= j < i ==> codes[j] == 0
    {
      EchoSnoc(executed, cmds[i]);
      stdout := stdout + [EchoPrefix + cmds[i]];
      executed := executed + [cmds[i]];
      assert executed == cmds[..i + 1];
      var retcode := codes[i];
      if retcode != 0 && !force {
        stderr := [AbortMessage(retcode)];
        status := 1;
        assert codes[..|cmds|][i] == codes[i];
        FirstFailureAt(codes[..|cmds|], i);
        return;
      }
      i := i + 1;
    }
    status := 0;
    assert executed == cmds;
    if !force {
      FirstFailureNone(codes[..|cmds|]);
    }
  }

  /** The commands of the run: every data row rendered, with the fields
      escaped when `escape` is set. */
  function Commands(file: seq<Row>, cmd: string, escape: bool): (cmds: seq<string>)
    requires |file| > 0
    ensures |cmds| == |file| - 1
    ensures forall k :: 1 <= k < |file| ==>
      cmds[k - 1] == Injected(cmd, k, file[k], if escape then Some(EscapeText) else None)
  {
    Loop(file, cmd, if escape then Some(EscapeText) else None).value
  }

  /** With `--escape`, every value substituted into the template (the row
      number too, being digits and possibly '-') is in [A-Za-z0-9_-]*. */
  lemma EscapedValuesSafe(rowN: int, line: seq<string>)
    ensures forall i :: 0 <= i < |line| + 1 ==> IsSafe(FieldValues(rowN, line, Some(EscapeText))[i])
  {
    var vals := FieldValues(rowN, line, Some(EscapeText));
    var d := IntToDecimal(rowN);
    assert vals[0] == d;
    assert forall j :: 0 <= j < |d| ==> IsSafeChar(d[j]);
  }

  /** With `--escape`, a template whose literal text holds no '{' renders
      exactly as its slots filled with the row number and the escaped fields. */
  lemma EscapedRenderFills(ps: seq<Piece>, rowN: int, line: seq<string>)
    requires TextsBraceFree(ps)
    ensures Injected(Flatten(ps), rowN, line, Some(EscapeText))
            == Fill(ps, FieldValues(rowN, line, Some(EscapeText)), |line| + 1)
  {
    forall i | 0 <= i < |line| ensures NoOpenBrace(Apply(Some(EscapeText), line[i])) {
      var e := EscapeText(line[i]);
      assert forall j :: 0 <= j < |e| ==> IsSafeChar(e[j]);
    }
    InjectedFills(ps, rowN, line, Some(EscapeText));
  }

  /** `main`, given the rows of the TSV file, the user's answer to the prompt
      and the return codes of the commands it runs. None: the file has no
      header row and the program stops with an uncaught exception. */
  method TsvCmd(opts: Options, file: seq<Row>, answer: string, codes: seq<int>)
    returns (r: Option<Outcome>)
    requires |file| <= |codes| + 1
    ensures r.None? <==> |file| == 0
    ensures |file| > 0 && opts.command.None? ==>
      r == Some(Outcome(0, [], [FieldSummary(file[0])], []))
    ensures |file| > 0 && opts.command.Some? ==>
      var cmds := Commands(file, opts.command.value, opts.escape);
      var preview := if opts.yes then [] else cmds + [FieldSummary(file[0])];
      r.Some? && r.value.stdout == preview + Echo(r.value.executed) &&
      if !opts.yes && !Confirmed(answer) then
        r.value == Outcome(0, [], preview, [])
      else if opts.force then
        r.value.status == 0 && r.value.executed == cmds && r.value.stderr == []
      else
        var k := FirstFailure(codes[..|cmds|]);
        if k < |cmds| then
          r.value.status == 1 && r.value.executed == cmds[..k + 1] &&
          r.value.stderr == [AbortMessage(codes[k])]
        else
          r.value.status == 0 && r.value.executed == cmds && r.value.stderr == []
  {
    var header := ReadHeader(file);
    if header.None? {
      return None;
    }
    var fields := header.value;
    if opts.command.None? {
      return Some(Outcome(0, [], [FieldSummary(fields)], []));
    }
    var cmd := opts.command.value;
    var fieldFunc: Option<string -> string> := if opts.escape then Some(EscapeText) else None;
    var stdout: seq<string> := [];
    var confirm := false;
    if !opts.yes {
      var preview := Loop(file, cmd, fieldFunc).value;
      stdout := preview + [FieldSummary(fields)];
      confirm := Confirmed(answer);
    }
    if confirm || opts.yes {
      var cmds := Loop(file, cmd, fieldFunc).value;
      var status, executed, echoed, stderr := RunCommands(cmds, codes, opts.force);
      return Some(Outcome(status, executed, stdout + echoed, stderr));
    }
    return Some(Outcome(0, [], stdout, []));
  }
}
