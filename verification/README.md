# Configuration generator — a Dafny model

`config_generator_jinja2.py` turns a table of per-device variables into
device configurations. There is at most one output file per hostname,
`<hostname>.cfg`. It holds the text of the last row for that hostname whose
rendering succeeded. Each row's cells become the template's variables. The `hostname` cell is
passed as text, and every other cell goes through Python-literal parsing,
falling back to the raw text when the cell is not a literal. The template
is rendered in strict-undefined mode.

The driver loop handles each row's outcome as follows:
- a successful render writes the file and prints a success line;
- an undefined variable prints one error line naming the variable;
- any other rendering failure prints one error line;
- after either error, processing goes on with the next row.

Header without a `hostname` column: one line printed, then a normal return with no rows processed.

The model has these modules:

- `Literals` (literals.dfy): the values literal parsing can produce. It also declares `Parser`, an arbitrary total function from a cell to an optional value.
- `RowContext` (row_context.dfy): how a row's context is built.
- `UndefinedMessage` (undefined_message.dfy): `str.split("'")[1]` on the undefined-variable message.
- `Batch` (batch.dfy): the row loop as a left fold over a state `Run(files, log, exit)`.
  - `files` maps hostnames to written text.
  - `log` is the sequence of printed lines.
  - `exit` records whether an exception escaped the loop.
- `BatchProperties` (batch_properties.dfy): lemmas about the whole fold.
- `Driver` (driver.dfy): the loop written statement by statement, proved equal to the fold.
- `Scenarios` (scenarios.dfy): small concrete batches.

Two library calls are model parameters: the template engine's `render` and Python's `ast.literal_eval` (`parse`). The proofs hold for every choice of them.

Behaviour of the code worth knowing. The program's help text (config_generator_jinja2.py:29) says only that the `hostname` column is required; the model follows what the code does:
- a header without `hostname` prints an error and then *returns normally* rather than failing the run;
- a failed file write is not caught per row (it is outside this model, see below);
- an undefined-variable message without a `'` makes the handler's `split("'")[1]` raise `IndexError`. That error escapes the loop and stops the batch. Files written by earlier rows stay, and no later row is processed. The model keeps this as exit status `Raised`.
  - Jinja's message for indexing past the end of a list, `list object has no element 0`, has no quote. So that is an ordinary way for a template to stop the whole batch.
  - For a missing attribute, Jinja's message is `'dict object' has no attribute 'speed'`. The first quoted text is the object's type, so the error line reads `missing variable 'dict object'`: it names the type, not the missing attribute.

## Model

| member | source | states |
|---|---|---|
| RowContext.BuildContext | config_generator_jinja2.py:73-83 | The context has exactly the row's columns. `hostname` is kept verbatim as text, even when it looks like a literal. Any other cell maps to the parsed value when parsing succeeds and to the raw text when it fails. |
| RowContext.BuildContextByLoop | config_generator_jinja2.py:73-83 | The loop over the row's items, one column at a time, builds the same context as `BuildContext`. |
| RowContext.CoercionIsParseOrRaw | config_generator_jinja2.py:76-82 | Every context value is either the raw cell as text or a value the parser produced for that cell. |
| RowContext.BuildContextUpdate | config_generator_jinja2.py:75-82 | Each cell is converted on its own: changing one cell changes only that column's entry in the context. |
| UndefinedMessage.FirstIndex | config_generator_jinja2.py:114 | The position of the first occurrence of a character. No earlier position holds it. |
| UndefinedMessage.Split | config_generator_jinja2.py:114 | Splitting at a separator gives one more part than the separator's occurrences. No part contains the separator, and joining the parts with it gives back the string. |
| UndefinedMessage.SplitJoin | config_generator_jinja2.py:114 | Joining separator-free parts and splitting the result gives back those parts. |
| UndefinedMessage.SplitAfterFirst | config_generator_jinja2.py:114 | Splitting a string gives its separator-free head, followed by the split of the text after the first separator. |
| UndefinedMessage.SplitHead | config_generator_jinja2.py:114 | The first part is the longest separator-free prefix of the string. |
| UndefinedMessage.MissingName | config_generator_jinja2.py:114 | Defined only when the message contains a quote. The name is the quote-free text that begins right after the first quote. It runs up to the second quote, or to the end of the message when there is none. |
| UndefinedMessage.NameBetweenQuotes | config_generator_jinja2.py:114 | For a message `…'name'…` whose text before the first quote is quote-free, the extracted name is exactly `name`. |
| RowContext.Coerce | config_generator_jinja2.py:76-82 | The rule for one cell. The `hostname` column always gives its raw text. Any other column gives the parsed value when parsing succeeds. The result is the raw text exactly when parsing fails or yields that same text. |
| Batch.SameContextSameOutcome | config_generator_jinja2.py:109-112 | The template sees a row only through its context: two rows whose contexts agree render alike, whatever their raw cells. |
| Batch.RowEffect | config_generator_jinja2.py:111-124 | The try/except around rendering. The handler raises exactly when the undefined-variable message has no quote. A file is written exactly when rendering succeeded, under the row's hostname and with the rendered text. Every reported failure is a row error naming the row's hostname. |
| Batch.RowNotice | config_generator_jinja2.py:111-124 | A row that does not crash prints one line naming its own hostname. The line is a success line exactly when rendering succeeded, and otherwise a row error. |
| Batch.RowNoticeReason | config_generator_jinja2.py:113-119 | A failing row's line gives the reason. An undefined-variable error names the variable extracted from the message. Any other failure carries the exception's own text. |
| Batch.Line | config_generator_jinja2.py:105-124 | The printed text of each line: the header error, `[ERROR] <host>: missing variable '<name>' in CSV.`, `[ERROR] <host>: rendering failed: <text>`, and `Generated config: <host>.cfg`. |
| Batch.MissingVariableLineQuotesName | config_generator_jinja2.py:114-115 | For a quote-free hostname and name, the missing-variable line quotes the name the way the undefined-variable message does: extracting between its first two quotes gives the name back. |
| Batch.Step | config_generator_jinja2.py:108-124 | Processing one row: <br>• A stopped batch stays unchanged. <br>• Lines are only appended, at most one per row. <br>• Only the row's own file can change. <br>• A failed render writes nothing and prints one error line naming the hostname, unless the handler raises, which happens exactly when the message has no quote. <br>• A success overwrites `<hostname>.cfg` with the rendered text. |
| Batch.Fold | config_generator_jinja2.py:108-124 | The row loop in table order. A stopped batch stays stopped. Lines are only appended, at most one per row. |
| Batch.GenerateConfigs | config_generator_jinja2.py:101-124 | A header without `hostname` gives no files and the single header error, with a normal return. Otherwise, the loop prints at most one line per row. |
| Batch.ErrorMarkerIffRowError | config_generator_jinja2.py:115-124 | A row's printed line starts with `[ERROR] ` exactly when the row failed. |
| BatchProperties.FoldAppend | config_generator_jinja2.py:108 | Processing two blocks of rows one after the other is the same as processing their concatenation. |
| BatchProperties.FoldCons | config_generator_jinja2.py:108 | The loop is the first row's step followed by the loop over the rest. |
| BatchProperties.FoldSnoc | config_generator_jinja2.py:108 | The loop is the loop over all but the last row, followed by the last row's step. |
| BatchProperties.NoticesInRowOrder | config_generator_jinja2.py:108-124 | The i-th line of a crash-free batch is the i-th row's line. |
| BatchProperties.OneLinePerRow | config_generator_jinja2.py:108-124 | A crash-free batch returns normally and appends exactly one line per row, in row order. |
| BatchProperties.WrittenBySnoc | config_generator_jinja2.py:121-123 | A hostname has been written after one more row exactly when it was written before, or the new row succeeded for it. |
| BatchProperties.OverwrittenLaterSnoc | config_generator_jinja2.py:121-123 | A success is overwritten within one more row exactly when it was already overwritten, or the new row is a later success for the same hostname. |
| BatchProperties.FilesAreLastSuccess | config_generator_jinja2.py:108-123 | After a crash-free batch, the output files are exactly the earlier files plus the hostnames of successful rows. A file nobody wrote keeps its old content. Each file holds the text of the last successful row for its hostname. |
| BatchProperties.StepIgnoresLog | config_generator_jinja2.py:108-124 | What one row does does not depend on the lines printed before it. |
| BatchProperties.FoldIgnoresLog | config_generator_jinja2.py:108-124 | The loop's files and exit status do not depend on earlier lines. Its lines are the earlier lines followed by what it prints on its own. |
| BatchProperties.FailureIsolation | config_generator_jinja2.py:113-119 | Adding a row whose rendering fails, without crashing the handler, does not change the files or the exit status. It inserts exactly its own error line, at its position. |
| BatchProperties.FailureLeavesFiles | config_generator_jinja2.py:113-119 | A failing row that does not crash the handler leaves the files and the exit status as they would be without it. This holds even when an earlier row stops the batch. |
| BatchProperties.StopsAtFirstCrash | config_generator_jinja2.py:113-116 | When the handler raises on row k, the batch ends as it stood after row k-1, with exit status `Raised`. Later rows are not processed. |
| Driver.ProcessRow | config_generator_jinja2.py:109-124 | The statement-level loop body has the effect of one step of the fold. |
| Driver.RunBatch | config_generator_jinja2.py:101-124 | The statement-level driver, with its early return and per-row `continue`, produces the same files, lines and exit status as `GenerateConfigs`. |
| Scenarios.HostnameLooksLikeLiteral | config_generator_jinja2.py:76-80 | A hostname `123` stays the text "123", while the same text in another column becomes the integer 123. |
| Scenarios.UndefinedNamesVariable | config_generator_jinja2.py:114 | For the message `'name' is undefined`, the extracted name is `name`. |
| Scenarios.UndefinedRowReportsName | config_generator_jinja2.py:113-116 | A row whose template misses a variable neither crashes nor succeeds. It reports that variable against its hostname. |
| Scenarios.ListIndexMessageCrashes | config_generator_jinja2.py:113-114 | A row whose rendering fails with `list object has no element 0` makes the handler raise, because that message has no quote. |
| Scenarios.MissingAttributeNamesType | config_generator_jinja2.py:114-115 | For a message `'<type>' has no attribute '<name>'` with a quote-free type, the extracted "variable" is the type. |
| Scenarios.FoldOfThree | config_generator_jinja2.py:108 | A three-row table is three steps. |
| Scenarios.RenderedStep | config_generator_jinja2.py:121-124 | A rendered row adds its file and its success line. |
| Scenarios.MissingVariableStep | config_generator_jinja2.py:113-116 | A row with a quoted undefined-variable message adds only its error line. |
| Scenarios.MiddleRowOutcomes | config_generator_jinja2.py:108-124 | Good, missing-variable, good: two files, and three lines in row order. The error line names the middle row's variable. |
| Scenarios.MiddleRowMissesVariable | config_generator_jinja2.py:101-124 | The same scenario through the whole generator, with the usual undefined-variable message. |
| Scenarios.LaterDuplicateWins | config_generator_jinja2.py:121-123 | Two successful rows for one hostname leave one file, holding the later text. |

## Left out

- Command-line parsing (config_generator_jinja2.py:23-63) is not modelled. It only supplies paths.
- Template loading and engine configuration (config_generator_jinja2.py:66-70, 93-99) are not modelled. Rendering is a parameter standing for the one loaded template, and a template load error ends the program before any row.
- The grammar of `ast.literal_eval` is not modelled. Parsing is a parameter that either yields a value or fails.
- Float values are kept as their source text. Tuple, set, bytes and complex literals are not separate value kinds.
- Directory creation and file writes are not modelled (config_generator_jinja2.py:90, 121-123). Writes always succeed, so a write error that would abort the run is not modelled. The output directory is a map from hostname to file content.
- Batch.Line: the success line gives `<hostname>.cfg` without the output-directory prefix that `os.path.join` adds.
- BatchProperties.FilesAreLastSuccess: a file is identified by its hostname text, not by the path `os.path.join` builds (config_generator_jinja2.py:121). Distinct hostnames that name the same file collide in the program but not in the model, for example `a` and `./a`, or `SW1` and `sw1` on a case-insensitive file system.
- CSV decoding is not modelled (config_generator_jinja2.py:102-103). This covers the byte-order mark, quoting, and rows shorter or longer than the header. A row is a map from column name to text. Whenever the header has `hostname`, every row is required to have that key, as the dictionary reader guarantees.
- Batch.GenerateConfigs: its own contract gives only the header case and the line bound. The per-row facts are stated for the fold it calls, in `BatchProperties` and `Driver.RunBatch`.
- Batch.Fold: its own contract gives only the append-only log and the line bound. The content of the log and the files is in `BatchProperties`.
- An empty CSV file is not modelled. Its header is `None` there, and the membership test at config_generator_jinja2.py:104 raises `TypeError`. The model's header is always a sequence of column names.
- The text of a rendering exception is a parameter, as is the whole template engine.
