/**
  The batch driver: a left fold over the rows of the variables table.

  The template engine is a foreign component. `Renderer` is any total,
  deterministic function from a context to the outcome of rendering the one
  loaded template with it. The fold sees a row only through the outcome of
  rendering that row's context (`RenderRow`). The output directory is an
  in-memory map from hostname to the text of `<hostname>.cfg`, and the
  console is a sequence of notices.
 */
module Batch {
  import opened Literals
  import opened RowContext
  import opened UndefinedMessage

  /** What rendering the template with one context can do. */
  datatype RenderOutcome =
    | Rendered(text: string)
    | Undefined(message: string)   // the strict-undefined error
    | Failed(message: string)      // any other exception raised while rendering

  type Renderer = Context -> RenderOutcome

  /** Rendering as the row loop sees it: from a raw row to an outcome. */
  type RowRenderer = Row -> RenderOutcome

  /** Build the row's context, then render the template with it. */
  function RenderRow(parse: Parser, render: Renderer): RowRenderer
  {
    row => render(BuildContext(parse, row))
  }

  /** The template sees a row only through its context: rows whose contexts
      agree render alike, whatever their raw cells. */
  lemma SameContextSameOutcome(parse: Parser, render: Renderer, a: Row, b: Row)
    requires BuildContext(parse, a) == BuildContext(parse, b)
    ensures RenderRow(parse, render)(a) == RenderRow(parse, render)(b)
  {
  }

  /** One console line. */
  datatype Notice =
    | Generated(hostname: string)
    | MissingVariable(hostname: string, variable: string)
    | RenderError(hostname: string, detail: string)
    | NoHostnameColumn
  {
    /** A per-row error report. */
    predicate IsRowError() {
      MissingVariable? || RenderError?
    }
  }

  /** How the driver ends: it returns normally, or the index error raised
      inside the undefined-variable handler escapes and stops the batch. */
  datatype Exit = Returned | Raised

  /** The fold's state: files written so far, lines printed so far, and
      whether the batch has been stopped by an escaping exception. */
  datatype Run = Run(files: map<string, string>, log: seq<Notice>, exit: Exit)

  const Start: Run := Run(map[], [], Returned)

  /** What processing one row does. */
  datatype Effect =
    | Write(hostname: string, text: string)
    | Report(notice: Notice)
    | HandlerRaised

  ghost predicate AllHaveHostname(rows: seq<Row>) {
    forall i :: 0 <= i < |rows| ==> HostnameColumn in rows[i]
  }

  predicate Succeeds(outcome: RowRenderer, row: Row) {
    outcome(row).Rendered?
  }

  /** The row's undefined-variable message has no quote to split at. */
  predicate Crashes(outcome: RowRenderer, row: Row) {
    outcome(row).Undefined? && Quote !in outcome(row).message
  }

  ghost predicate NoCrash(outcome: RowRenderer, rows: seq<Row>) {
    forall i :: 0 <= i < |rows| ==> !Crashes(outcome, rows[i])
  }

  /** The try/except around rendering: a rendered text is written, a quoted
      undefined-variable message and any other failure are reported, and a
      quote-free undefined-variable message makes the handler itself raise. */
  function RowEffect(outcome: RowRenderer, row: Row): (e: Effect)
    requires HostnameColumn in row
    ensures e.HandlerRaised? <==> Crashes(outcome, row)
    ensures e.Write? <==> Succeeds(outcome, row)
    ensures e.Write? ==> e.hostname == row[HostnameColumn] && e.text == outcome(row).text
    ensures e.Report? ==> e.notice.IsRowError() && e.notice.hostname == row[HostnameColumn]
  {
    var hostname := row[HostnameColumn];
    match outcome(row)
    case Rendered(text) => Write(hostname, text)
    case Undefined(message) =>
      if Quote in message then Report(MissingVariable(hostname, MissingName(message)))
      else HandlerRaised
    case Failed(message) => Report(RenderError(hostname, message))
  }

  /** The one line a row that does not crash prints. */
  function RowNotice(outcome: RowRenderer, row: Row): (n: Notice)
    requires HostnameColumn in row
    requires !Crashes(outcome, row)
    ensures n.Generated? || n.IsRowError()
    ensures n.hostname == row[HostnameColumn]
    ensures n.Generated? <==> Succeeds(outcome, row)
  {
    match RowEffect(outcome, row)
    case Write(hostname, _) => Generated(hostname)
    case Report(notice) => notice
  }

  /** A failing row's line gives the reason: the missing variable's name
      for an undefined-variable error, the exception's own text otherwise. */
  lemma RowNoticeReason(outcome: RowRenderer, row: Row)
    requires HostnameColumn in row && !Crashes(outcome, row)
    ensures outcome(row).Undefined? ==>
              RowNotice(outcome, row) == MissingVariable(row[HostnameColumn], MissingName(outcome(row).message))
    ensures outcome(row).Failed? ==>
              RowNotice(outcome, row) == RenderError(row[HostnameColumn], outcome(row).message)
  {
  }

  /** Processing one row. */
  function Step(outcome: RowRenderer, run: Run, row: Row): (r: Run)
    requires HostnameColumn in row
    // once the batch is stopped nothing happens any more
    ensures run.exit == Raised ==> r == run
    // printed lines are never taken back, and a row prints at most one
    ensures run.log <= r.log && |r.log| <= |run.log| + 1
    // only the row's own output file can change
    ensures r.files.Keys <= run.files.Keys + {row[HostnameColumn]}
    ensures forall h :: h in run.files && h != row[HostnameColumn] ==>
              h in r.files && r.files[h] == run.files[h]
    // a row whose rendering fails writes nothing; unless the handler itself
    // raises, it prints exactly one error line naming its hostname
    ensures run.exit == Returned && !Succeeds(outcome, row) ==>
              && r.files == run.files
              && (r.exit == Raised <==> Crashes(outcome, row))
              && (r.exit == Raised ==> r.log == run.log)
              && (r.exit == Returned ==>
                    && |r.log| == |run.log| + 1
                    && r.log[|run.log|].IsRowError()
                    && r.log[|run.log|].hostname == row[HostnameColumn])
    // a row that does not crash prints its own line and the batch goes on
    ensures run.exit == Returned && !Crashes(outcome, row) ==>
              r.exit == Returned && r.log == run.log + [RowNotice(outcome, row)]
    // a successful row overwrites its file with the rendered text
    ensures run.exit == Returned && Succeeds(outcome, row) ==>
              r.files == run.files[row[HostnameColumn] := outcome(row).text]
  {
    if run.exit == Raised then run
    else
      match RowEffect(outcome, row)
      case Write(hostname, text) => Run(run.files[hostname := text], run.log + [Generated(hostname)], Returned)
      case Report(notice) => Run(run.files, run.log + [notice], Returned)
      case HandlerRaised => run.(exit := Raised)
  }

  /** The row loop, as a left fold in table order. */
  function Fold(outcome: RowRenderer, run: Run, rows: seq<Row>): (r: Run)
    requires AllHaveHostname(rows)
    ensures run.exit == Raised ==> r == run
    ensures run.log <= r.log && |r.log| <= |run.log| + |rows|
    decreases |rows|
  {
    if rows == [] then run
    else Fold(outcome, Step(outcome, run, rows[0]), rows[1..])
  }

  /** The whole generator once the template is loaded: check the header,
      then fold over the rows. A header without `hostname` prints one line
      and returns normally, having processed no row. */
  function GenerateConfigs(parse: Parser, render: Renderer, header: seq<string>, rows: seq<Row>): (r: Run)
    requires HostnameColumn in header ==> AllHaveHostname(rows)
    ensures HostnameColumn !in header ==> r == Run(map[], [NoHostnameColumn], Returned)
    ensures HostnameColumn in header ==> |r.log| <= |rows|
  {
    if HostnameColumn !in header then Run(map[], [NoHostnameColumn], Returned)
    else Fold(RenderRow(parse, render), Start, rows)
  }

  const SuccessPrefix: string := "Generated config: "

  /** The text of a console line. The success line names the output file
      relative to the output directory. */
  function Line(n: Notice): (line: string)
    ensures n.IsRowError() ==> "[ERROR] " + n.hostname + ": " <= line
    ensures n.Generated? ==> line == SuccessPrefix + n.hostname + ".cfg"
    ensures n.MissingVariable? ==>
              line == "[ERROR] " + n.hostname + ": missing variable '" + n.variable + "' in CSV."
    ensures n.RenderError? ==> line == "[ERROR] " + n.hostname + ": rendering failed: " + n.detail
    ensures n.NoHostnameColumn? ==> line == "ERROR: CSV must contain 'hostname' column."
  {
    match n
    case Generated(hostname) => SuccessPrefix + hostname + ".cfg"
    case MissingVariable(hostname, variable) =>
      "[ERROR] " + hostname + ": missing variable '" + variable + "' in CSV."
    case RenderError(hostname, detail) => "[ERROR] " + hostname + ": rendering failed: " + detail
    case NoHostnameColumn => "ERROR: CSV must contain 'hostname' column."
  }

  /** The missing-variable line quotes the name the way the undefined-variable
      message does, so extracting between the first two quotes recovers it. */
  lemma MissingVariableLineQuotesName(hostname: string, variable: string)
    requires Quote !in hostname && Quote !in variable
    ensures Quote in Line(MissingVariable(hostname, variable))
    ensures MissingName(Line(MissingVariable(hostname, variable))) == variable
  {
    var prefix := "[ERROR] " + hostname + ": missing variable ";
    var suffix := "' in CSV.";
    assert Quote !in "[ERROR] " && Quote !in ": missing variable ";
    assert Line(MissingVariable(hostname, variable)) == prefix + [Quote] + variable + suffix;
    NameBetweenQuotes(prefix, variable, suffix);
  }

  /** A row's console line starts with the error marker exactly when the row
      failed, so the two kinds of line cannot be confused. */
  lemma ErrorMarkerIffRowError(n: Notice)
    requires n.Generated? || n.IsRowError()
    ensures "[ERROR] " <= Line(n) <==> n.IsRowError()
  {
    if n.Generated? {
      assert Line(n)[0] == 'G';
    }
  }
}
