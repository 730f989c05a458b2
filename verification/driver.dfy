/**
  The generator written as its own statement-level loop, proved equal
  to the fold.
 */
module Driver {
  import opened Literals
  import opened RowContext
  import opened UndefinedMessage
  import opened Batch
  import opened BatchProperties

  /** The body of the row loop: build the context, render, and either write
      the file, report the failure, or let the handler's index error escape. */
  method ProcessRow(parse: Parser, render: Renderer, files: map<string, string>, log: seq<Notice>, row: Row)
    returns (files': map<string, string>, log': seq<Notice>, exit: Exit)
    requires HostnameColumn in row
    ensures Run(files', log', exit) == Step(RenderRow(parse, render), Run(files, log, Returned), row)
  {
    files', log', exit := files, log, Returned;
    var hostname := row[HostnameColumn];
    var context := BuildContextByLoop(parse, row);
    match render(context) {
      case Rendered(text) =>
        files' := files'[hostname := text];
        log' := log' + [Generated(hostname)];
      case Undefined(message) =>
        if Quote !in message {
          exit := Raised;
          return;
        }
        log' := log' + [MissingVariable(hostname, MissingName(message))];
      case Failed(message) =>
        log' := log' + [RenderError(hostname, message)];
    }
  }

  /** Return early on a header without `hostname`, go on to the next row
      after a reported failure, and stop at once when the handler raises. */
  method RunBatch(parse: Parser, render: Renderer, header: seq<string>, rows: seq<Row>)
    returns (files: map<string, string>, log: seq<Notice>, exit: Exit)
    requires HostnameColumn in header ==> AllHaveHostname(rows)
    ensures Run(files, log, exit) == GenerateConfigs(parse, render, header, rows)
  {
    files, log, exit := map[], [], Returned;
    if HostnameColumn !in header {
      log := [NoHostnameColumn];
      return;
    }
    ghost var outcome := RenderRow(parse, render);
    var i := 0;
    while i < |rows|
      invariant 0 <= i <= |rows|
      invariant exit == Returned
      invariant Fold(outcome, Start, rows) == Fold(outcome, Run(files, log, exit), rows[i..])
    {
      ghost var before := Run(files, log, exit);
      assert rows[i..] == [rows[i]] + rows[i + 1..];
      FoldCons(outcome, before, rows[i], rows[i + 1..]);
      files, log, exit := ProcessRow(parse, render, files, log, rows[i]);
      if exit == Raised {
        return;
      }
      i := i + 1;
    }
    assert rows[i..] == [];
  }
}
