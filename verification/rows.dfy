/** `tsv_reader` and `loop`: the rows of an already parsed TSV file (header
    first) and the rendered command for each data row, numbered from 1. */
module Rows {
  import opened Wrappers
  import opened Render

  type Row = seq<string>

  /** `next(tsv_reader(filename, header_only=True))`: the header row; an
      empty file makes `next` fail, modelled as None. */
  function ReadHeader(file: seq<Row>): (h: Option<Row>)
    ensures h.Some? <==> |file| > 0
    ensures h.Some? ==> h.value == file[0]
  {
    if |file| == 0 then None else Some(file[0])
  }

  /** `tsv_reader(filename)`: the header is consumed and not yielded; the
      data rows follow in file order. An empty file fails (None). */
  function TsvReader(file: seq<Row>): (rows: Option<seq<Row>>)
    ensures rows.Some? <==> |file| > 0
    ensures rows.Some? ==> |rows.value| == |file| - 1
    ensures rows.Some? ==> forall k :: 0 <= k < |rows.value| ==> rows.value[k] == file[k + 1]
  {
    if |file| == 0 then None else Some(file[1..])
  }

  /** The rendered commands of `rows`, numbered from `start` as by
      `enumerate(rows, start=start)`. */
  function Numbered(cmd: string, rows: seq<Row>, start: int, fieldFunc: Option<string -> string>)
    : (cmds: seq<string>)
    ensures |cmds| == |rows|
    ensures forall k :: 0 <= k < |rows| ==> cmds[k] == Injected(cmd, start + k, rows[k], fieldFunc)
    decreases |rows|
  {
    if |rows| == 0 then []
    else [Injected(cmd, start, rows[0], fieldFunc)] + Numbered(cmd, rows[1..], start + 1, fieldFunc)
  }

  /** `loop(filename, cmd, field_func)`: the k-th command (counting from 1) is
      the template rendered for the k-th data row with row number k. */
  function Loop(file: seq<Row>, cmd: string, fieldFunc: Option<string -> string>)
    : (cmds: Option<seq<string>>)
    ensures cmds.Some? <==> |file| > 0
    ensures cmds.Some? ==> |cmds.value| == |file| - 1
    ensures cmds.Some? ==>
      forall k :: 1 <= k < |file| ==> cmds.value[k - 1] == Injected(cmd, k, file[k], fieldFunc)
  {
    match TsvReader(file)
    case None => None
    case Some(rows) => Some(Numbered(cmd, rows, 1, fieldFunc))
  }
}
