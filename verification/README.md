# tsvcmd in Dafny

A verified model of `tsvcmd`, a command-line tool that reads a
tab-separated file and runs a shell-command template once for each data row.
The first row is the header, which only names the fields.
In a template, `{0}` stands for the row number (counting data rows from 1) and `{i}` for field i.
The tool can escape field values for use as path components.
It either previews the commands and asks `Perform (y/N)?`, or runs them straight away with `--yes`.
It stops at the first command that fails unless `--force` is given.

Modules, one per piece of the program:

- `Escape`: `escape_text`, a per-character map onto the class `[a-zA-Z0-9-_]`
  (three ASCII ranges plus the literal `-` and `_`).
- `Replace`: Python's `str.replace` for a non-empty pattern (left to right,
  non-overlapping, replacement text not rescanned within one call), and what
  it does to placeholder-shaped patterns.
- `Decimal`: Python's `str(int)`, used for the row number, for the index inside `{i}` and for
  the return code in the abort message.
- `Render`: `inject_fields`. `InjectFields` is a method with the source's loop, proved against the
  fold `ReplaceFrom`.
- `Summary`: `print_available_fields`.
- `Rows`: `tsv_reader` and `loop` over an already parsed file (a sequence of rows, header first).
- `Cli`: `main`. `RunCommands` is the execution loop, with its early return.
  `TsvCmd` is the whole decision logic: the no-command summary, preview, confirmation, execution, abort and `--force`.
  `run` is an oracle: the k-th command actually run returns `codes[k]`.
- `Examples`: the docstring examples. Two templates show that text substituted early is scanned again by later steps.

One might expect `{0}` in a rendered command always to give the row's position.
The code does not guarantee this, because replacement goes by ascending index over the whole string.
So the template `{{0}}` becomes `{1}` for row 1, and the next step then replaces that with field 1.
The model follows the code, and `Examples.InjectFieldsRowNumberRewritten` proves it.
The intended reading does hold under a side condition, which `Render.InjectedFills` proves.
If no `{` occurs in the template's literal text or in any field value, rendering is plain slot filling (`Render.Fill`).
With `--escape` the field values cannot contain `{`, so the condition reduces to the template (`Cli.EscapedRenderFills`).
The docstring of `print_available_fields` shows its output without the leading `Fields: `.
The code returns it with that prefix, and the model follows the code.
In the source text, the line echoed before each command starts with the two characters U+00C2 U+00BB and a space.
That is a doubly encoded `»`, and the model uses those characters as written.

## Model

| member | source | states |
|---|---|---|
| `Escape.EscapeText` | tsvcmd.py:22-23 | The result has the input's length and contains only characters of `[a-zA-Z0-9-_]`. Each safe character is kept and each other character becomes `_`. |
| `Escape.EscapeTextFixedIff` | tsvcmd.py:23 | Escaping returns its input unchanged exactly when every character of it is already safe (both directions). |
| `Escape.EscapeTextIdempotent` | tsvcmd.py:23 | Escaping twice gives the same text as escaping once. |
| `Replace.ReplaceAll` | tsvcmd.py:50 | `str.replace` with a non-empty pattern. A string shorter than the pattern is returned as is. An occurrence at the front is replaced and scanning resumes after it. Otherwise the first character is kept and scanning goes on from the next one. |
| `Replace.ReplaceAllAbsent` | tsvcmd.py:50 | `str.replace` returns the string unchanged when the pattern does not occur in it. |
| `Replace.ReplaceAllConcat` | tsvcmd.py:50 | When no occurrence straddles the boundary between two strings, replacing in the concatenation is replacing in each part. |
| `Replace.ReplaceAllLeftmost` | tsvcmd.py:50 | Left-to-right scanning: when the first occurrence of the pattern comes right after `a`, then `a` is kept, that occurrence becomes the replacement, and scanning continues after it. |
| `Replace.ReplaceAllWhole` | tsvcmd.py:50 | A string that is exactly the pattern becomes exactly the replacement. |
| `Replace.ReplaceAllKeepsPlaceholder` | tsvcmd.py:49-50 | Replacing one placeholder leaves every occurrence of a different placeholder in place. The text on either side is rewritten independently. |
| `Replace.ReplaceAllKeepsContains` | tsvcmd.py:49-50 | After replacing one placeholder, a different placeholder that occurred still occurs. |
| `Replace.ReplaceAllSkipText` | tsvcmd.py:50 | Text without `{` in front of a string is kept, and replacement of a placeholder goes on in the rest. |
| `Replace.ReplaceAllPrefix` | tsvcmd.py:50 | An occurrence of the pattern at the very start is replaced, and scanning resumes right after it. |
| `Replace.ReplaceAllNoOpenBrace` | tsvcmd.py:50 | Text without `{` is unchanged by replacing a placeholder. |
| `Decimal.NatToDecimal` | tsvcmd.py:48 | `str(n)` for n >= 0 is a non-empty digit string with no superfluous leading zero. It is `"0"` exactly for 0. |
| `Decimal.ParseNatToDecimal` | tsvcmd.py:48 | Reading back the decimal text gives the number again. |
| `Decimal.NatToDecimalParse` | tsvcmd.py:48 | Every canonical digit string is the decimal text of its value (the other direction of the round trip). |
| `Decimal.NatToDecimalInjective` | tsvcmd.py:50 | Distinct indices have distinct decimal texts. |
| `Decimal.IntToDecimal` | tsvcmd.py:48 | `str(n)` is non-empty, made of digits and `-`. It starts with `-` exactly when n < 0. The digits after the sign have no superfluous leading zero. |
| `Decimal.ParseIntToDecimal` | tsvcmd.py:48 | `str(n)` is a numeral whose value is n. |
| `Replace.Placeholder` | tsvcmd.py:50 | `{i}` has braces at both ends and none inside. |
| `Replace.PlaceholderInjective` | tsvcmd.py:49-50 | `{i}` and `{k}` are the same text exactly when i = k. |
| `Render.FieldValues` | tsvcmd.py:46-48 | The value list has one more entry than the row. Entry 0 is `str(row_n)`, never passed through the field function. Entry i is field i-1 after the field function (identity when there is none). |
| `Render.ReplaceFrom` | tsvcmd.py:48-51 | The loop from index i onwards: replace `{i}` by value i in the whole string, then go on with i+1, up to the last value. |
| `Render.Injected` | tsvcmd.py:40-51 | `inject_fields` as a function: the fold `ReplaceFrom` from index 0 over the values `FieldValues`. |
| `Render.InjectFields` | tsvcmd.py:40-51 | The loop's result is the fold that replaces `{0}`, `{1}`, … in ascending order, each by whole-string replacement. |
| `Render.ReplaceFromAbsent` | tsvcmd.py:48-51 | A template that contains no `{i}` for a remaining index i is returned unchanged. |
| `Render.ReplaceFromKeepsOutOfRange` | tsvcmd.py:48-51 | A placeholder whose index is at least the number of values stays verbatim in place through all the steps. The text before it and the text after it are rendered independently. |
| `Render.InjectedKeepsOutOfRange` | tsvcmd.py:40-51 | A `{k}` with k > len(line) in the template appears verbatim at the same place in the rendered command, between the renderings of the text before it and the text after it. |
| `Render.ReplaceFromRescans` | tsvcmd.py:49-50 | The template `{i}` renders as value i rewritten by all later steps i+1, i+2, …: substituted text is scanned again. |
| `Render.FlattenAppend` | tsvcmd.py:40 | The text of two piece lists put together is the text of the first followed by that of the second. |
| `Render.FillAppend` | tsvcmd.py:40-51 | Filling the slots of two piece lists put together is filling each list and concatenating. |
| `Render.FillNothing` | tsvcmd.py:48-51 | Before any step, the filled template is the template itself. |
| `Render.FillStep` | tsvcmd.py:48-50 | When no literal text and no value contains `{`, step n of the loop (replace `{n}` by value n) fills exactly the slots with index n. |
| `Render.ReplaceFromFill` | tsvcmd.py:48-51 | Under the same condition, the remaining steps n, n+1, … fill all the remaining slots. |
| `Render.InjectedFills` | tsvcmd.py:40-51 | If a template's literal text and every field value are free of `{`, rendering is slot filling: each `{i}` with i <= len(line) becomes value i, and every other `{k}` is left as it is. |
| `Render.DecimalHasNoPlaceholder` | tsvcmd.py:48-50 | The decimal text of a number contains no placeholder. |
| `Render.InjectedRowNumber` | tsvcmd.py:46-50 | The template `{0}` renders as `str(row_n)`, whatever the fields and the field function are. |
| `Summary.Join` | tsvcmd.py:18 | `sep.join(parts)`: empty for no parts, the part itself for one, and the parts with `sep` between consecutive ones otherwise. |
| `Summary.JoinSnoc` | tsvcmd.py:18 | Joining with one more part appends the separator and that part. |
| `Summary.Entries` | tsvcmd.py:19 | There are len(fields)+1 entries. Entry 0 is `{0}=(line number)` and entry i is `{i}=` followed by field name i-1. |
| `Summary.FieldSummary` | tsvcmd.py:18-20 | The summary starts with `Fields: `. |
| `Summary.FieldSummaryNoFields` | tsvcmd.py:18-20 | With no field names, the summary is `Fields: {0}=(line number)`. |
| `Summary.FieldSummarySnoc` | tsvcmd.py:18-20 | One more header field appends a space and the entry `{n}=name`, where n is the new number of fields. Together with `FieldSummaryNoFields`, this determines the summary. |
| `Rows.ReadHeader` | tsvcmd.py:34-36 | The header is the first row. An empty file has none, so `next` fails. |
| `Rows.TsvReader` | tsvcmd.py:30-38 | The header is consumed and not yielded. The data rows follow in file order. An empty file fails. |
| `Rows.Numbered` | tsvcmd.py:55-57 | The k-th command is the template rendered for the k-th row, with row number start + k. |
| `Rows.Loop` | tsvcmd.py:53-57 | There is one command per data row. The k-th command (from 1) is the template rendered for data row k with row number k. An empty file fails. |
| `Cli.Confirmed` | tsvcmd.py:96 | The answer confirms exactly when it is `y` or `Y`. Any other text, the empty answer included, declines. |
| `Cli.AbortMessage` | tsvcmd.py:103 | The stderr line for a failed command: `tsvcmd: process returned code: `, then `str(code)`, then `. Abort.`. |
| `Cli.Echo` | tsvcmd.py:100 | One echo line per command run: the prefix followed by the command. |
| `Cli.EchoSnoc` | tsvcmd.py:99-100 | Running one more command appends exactly one echo line, for that command, at the end. |
| `Cli.FirstFailure` | tsvcmd.py:101-102 | The result is the index of the first nonzero return code (all earlier codes are zero), or the number of codes when none is nonzero. |
| `Cli.RunCommands` | tsvcmd.py:99-106 | With `force`, every command runs and the status is 0. Without it, commands run in order up to and including the first nonzero code, none after it runs, and the status is 1 with the abort message on stderr. When no code is nonzero, all run and the status is 0. The status is 1 exactly when `force` is off and some code is nonzero. Each run command is echoed. |
| `Cli.Commands` | tsvcmd.py:85-89 | There is one command per data row. Command k-1 is the template rendered for data row k with row number k, with `escape_text` as the field function when `--escape` is set and none otherwise. |
| `Cli.EscapedValuesSafe` | tsvcmd.py:46-48 | With `--escape`, every substituted value, the row number included, is in `[A-Za-z0-9_-]*`. |
| `Cli.EscapedRenderFills` | tsvcmd.py:40-51 | With `--escape`, a template whose literal text has no `{` renders by slot filling with the row number and the escaped fields, so no field value can be rewritten by a later step. |
| `Cli.TsvCmd` | tsvcmd.py:78-106 | An empty file fails. With no command, the output is the field summary alone and the status is 0. Without `--yes`, the rendered commands and the summary are printed first. If the answer is then anything but `y`/`Y`, nothing runs and the status is 0. Otherwise the commands run as `RunCommands` states (abort on the first failure with status 1, or all with `--force` and status 0). |
| `Examples.InjectFieldsDocExample` | tsvcmd.py:42-44 | `('mv {0}.pdf {1}-{2}.pdf', 5, ['John', 'Al Bano'], escape_text)` renders as `mv 5.pdf John-Al_Bano.pdf`. |
| `Examples.InjectFieldsRescanExample` | tsvcmd.py:49-50 | For the template `{1}` with fields `{2}` and `x`, the substituted `{2}` is replaced again, giving `x`. |
| `Examples.InjectFieldsRowNumberRewritten` | tsvcmd.py:48-50 | For row 1, the template `{{0}}` with field `a` renders as `a`, not as text holding the row number. |
| `Examples.FieldSummaryOfTwo` | tsvcmd.py:18-20 | For a header of two fields a and b, the summary is `Fields: {0}=(line number) {1}=a {2}=b`. |
| `Examples.FieldSummaryDocExample` | tsvcmd.py:14-20 | The summary for `['Name', 'Surname']` is `Fields: {0}=(line number) {1}=Name {2}=Surname`. |

## Left out

- Running a command through the shell (`subprocess.run`): replaced by the oracle sequence `codes`. `Cli.RunCommands` and `Cli.TsvCmd` require at least one code per command that may run.
- Opening the file and the `csv` reader's dialect (quoting, embedded tabs and newlines): rows are taken already parsed. A missing or unreadable file is not modelled.
- `tsv_reader` with `header_only=True` also goes on to yield the data rows; `main` only takes the first item, so only `Rows.ReadHeader` is modelled.
- The file is read twice by the source (preview pass, then execution pass). The model reads one file value for both, which matches the source only if the file does not change in between.
- The argument parser, the prompt text `Perform (y/N)? ` and reading standard input: the options arrive as `Cli.Options` and the answer as a string (a failed read at end of input is not modelled).
- Printed output is returned as sequences of lines; the stream interleaving with the commands' own output is not modelled.
- The regular-expression engine: `Escape.IsSafeChar` states the character class directly.
- `Replace.ReplaceAll` is only defined for non-empty patterns; `str.replace` with an empty pattern is never used here.
- An empty file is one failure (`None`); the Python exception type (`StopIteration` turned into `RuntimeError`) is not distinguished.
- Arbitrary `field_func` callables are modelled as total functions on strings; the tool itself only passes `escape_text` or nothing.
