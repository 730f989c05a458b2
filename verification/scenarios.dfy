/**
  Small concrete batches: the hostname exemption, a row with a missing
  variable between two good rows, and two rows for the same device.
 */
module Scenarios {
  import opened Options
  import opened Literals
  import opened RowContext
  import opened UndefinedMessage
  import opened Batch
  import opened BatchProperties

  /** A hostname that looks like a number stays a string, while the same
      text in another column is parsed. */
  lemma HostnameLooksLikeLiteral(parse: Parser)
    requires parse("123") == Some(Int(123))
    ensures var ctx := BuildContext(parse, map[HostnameColumn := "123", "asn" := "123"]);
            ctx[HostnameColumn] == Str("123") && ctx["asn"] == Int(123)
  {
  }

  /** The usual strict-undefined message, `'<name>' is undefined`. */
  function UndefinedMessageFor(name: string): string {
    [Quote] + name + ([Quote] + UndefinedSuffix)
  }

  const UndefinedSuffix: string := " is undefined"

  lemma UndefinedNamesVariable(name: string)
    requires Quote !in name
    ensures Quote in UndefinedMessageFor(name)
    ensures MissingName(UndefinedMessageFor(name)) == name
  {
    var suffix := [Quote] + UndefinedSuffix;
    NameBetweenQuotes([], name, suffix);
    assert [] + [Quote] == [Quote];
  }

  /** Jinja's message for indexing past the end of a list. */
  const ListIndexMessage: string := "list object has no element 0"

  /** That message has no quote in it, so the handler's own index error
      stops the batch. */
  lemma ListIndexMessageCrashes(outcome: RowRenderer, row: Row)
    requires outcome(row) == Undefined(ListIndexMessage)
    ensures Crashes(outcome, row)
  {
    var m := ListIndexMessage;
    assert forall i | 0 <= i < |m| :: m[i] != Quote;
  }

  /** Jinja's message for a missing attribute, `'<type>' has no attribute '<name>'`. */
  function AttributeMessageFor(owner: string, attribute: string): string {
    [Quote] + owner + ([Quote] + AttributeInfix + [Quote] + attribute + [Quote])
  }

  const AttributeInfix: string := " has no attribute "

  /** For a missing attribute the first quoted text is the object's type, so
      the error line names, say, `dict object` rather than the attribute. */
  lemma MissingAttributeNamesType(owner: string, attribute: string)
    requires Quote !in owner
    ensures Quote in AttributeMessageFor(owner, attribute)
    ensures MissingName(AttributeMessageFor(owner, attribute)) == owner
  {
    var suffix := [Quote] + AttributeInfix + [Quote] + attribute + [Quote];
    NameBetweenQuotes([], owner, suffix);
    assert [] + [Quote] == [Quote];
  }

  /** A three-row batch is three steps. */
  lemma FoldOfThree(outcome: RowRenderer, run: Run, r1: Row, r2: Row, r3: Row)
    requires HostnameColumn in r1 && HostnameColumn in r2 && HostnameColumn in r3
    ensures AllHaveHostname([r1, r2, r3])
    ensures Fold(outcome, run, [r1, r2, r3])
         == Step(outcome, Step(outcome, Step(outcome, run, r1), r2), r3)
  {
    var tail3: seq<Row> := [r3];
    var tail2 := [r2] + tail3;
    assert [r1, r2, r3] == [r1] + tail2;
    assert tail3 == [r3] + [];
    var s1 := Step(outcome, run, r1);
    FoldCons(outcome, run, r1, tail2);
    FoldCons(outcome, s1, r2, tail3);
    FoldCons(outcome, Step(outcome, s1, r2), r3, []);
  }

  /** A row whose template names an undefined variable in the usual message
      reports that variable against its hostname. */
  lemma UndefinedRowReportsName(outcome: RowRenderer, row: Row, variable: string)
    requires HostnameColumn in row
    requires Quote !in variable
    requires outcome(row) == Undefined(UndefinedMessageFor(variable))
    ensures !Crashes(outcome, row) && !Succeeds(outcome, row)
    ensures RowNotice(outcome, row) == MissingVariable(row[HostnameColumn], variable)
  {
    UndefinedNamesVariable(variable);
    assert RowEffect(outcome, row) == Report(MissingVariable(row[HostnameColumn], variable));
  }

  /** One step over a row that renders. */
  lemma RenderedStep(outcome: RowRenderer, run: Run, row: Row, text: string)
    requires HostnameColumn in row && run.exit == Returned
    requires outcome(row) == Rendered(text)
    ensures Step(outcome, run, row)
         == Run(run.files[row[HostnameColumn] := text], run.log + [Generated(row[HostnameColumn])], Returned)
  {
  }

  /** One step over a row whose rendering reports an undefined variable
      with a quoted name. */
  lemma MissingVariableStep(outcome: RowRenderer, run: Run, row: Row, message: string)
    requires HostnameColumn in row && run.exit == Returned
    requires outcome(row) == Undefined(message) && Quote in message
    ensures Step(outcome, run, row)
         == Run(run.files, run.log + [MissingVariable(row[HostnameColumn], MissingName(message))], Returned)
  {
  }

  /** The middle-row scenario at the level of rendering outcomes. */
  lemma MiddleRowOutcomes(outcome: RowRenderer, r1: Row, r2: Row, r3: Row,
                          t1: string, t3: string, message: string, variable: string)
    requires HostnameColumn in r1 && HostnameColumn in r2 && HostnameColumn in r3
    requires outcome(r1) == Rendered(t1)
    requires outcome(r2) == Undefined(message) && Quote in message
    requires MissingName(message) == variable
    requires outcome(r3) == Rendered(t3)
    ensures AllHaveHostname([r1, r2, r3])
    ensures Fold(outcome, Start, [r1, r2, r3])
         == Run(map[r1[HostnameColumn] := t1][r3[HostnameColumn] := t3],
                [Generated(r1[HostnameColumn])] + [MissingVariable(r2[HostnameColumn], variable)]
                  + [Generated(r3[HostnameColumn])],
                Returned)
  {
    FoldOfThree(outcome, Start, r1, r2, r3);
    var s1 := Step(outcome, Start, r1);
    RenderedStep(outcome, Start, r1, t1);
    var s2 := Step(outcome, s1, r2);
    MissingVariableStep(outcome, s1, r2, message);
    RenderedStep(outcome, s2, r3, t3);
  }

  /** Three rows, the middle one missing a variable the template needs: two
      files are written, one error names the middle row and the variable,
      and the third row is still processed. */
  lemma MiddleRowMissesVariable(parse: Parser, render: Renderer, header: seq<string>,
                                r1: Row, r2: Row, r3: Row, t1: string, t3: string, variable: string)
    requires HostnameColumn in header
    requires HostnameColumn in r1 && HostnameColumn in r2 && HostnameColumn in r3
    requires Quote !in variable
    requires render(BuildContext(parse, r1)) == Rendered(t1)
    requires render(BuildContext(parse, r2)) == Undefined(UndefinedMessageFor(variable))
    requires render(BuildContext(parse, r3)) == Rendered(t3)
    ensures var h1, h2, h3 := r1[HostnameColumn], r2[HostnameColumn], r3[HostnameColumn];
            var r := GenerateConfigs(parse, render, header, [r1, r2, r3]);
            && r.exit == Returned
            && r.files == map[h1 := t1][h3 := t3]
            && r.log == [Generated(h1)] + [MissingVariable(h2, variable)] + [Generated(h3)]
  {
    UndefinedNamesVariable(variable);
    MiddleRowOutcomes(RenderRow(parse, render), r1, r2, r3, t1, t3, UndefinedMessageFor(variable), variable);
  }

  /** Two rows for the same device: one file, holding the later row's text. */
  lemma LaterDuplicateWins(parse: Parser, render: Renderer, header: seq<string>,
                           first: Row, second: Row, t1: string, t2: string)
    requires HostnameColumn in header
    requires HostnameColumn in first && HostnameColumn in second
    requires first[HostnameColumn] == second[HostnameColumn]
    requires render(BuildContext(parse, first)) == Rendered(t1)
    requires render(BuildContext(parse, second)) == Rendered(t2)
    ensures GenerateConfigs(parse, render, header, [first, second]).files
         == map[first[HostnameColumn] := t2]
  {
    var outcome := RenderRow(parse, render);
    var rows := [first, second];
    var h := first[HostnameColumn];
    var s1 := Step(outcome, Start, first);
    assert s1.files == map[h := t1];
    var s2 := Step(outcome, s1, second);
    assert s2.files == map[h := t2];
    assert rows == [first] + ([second] + []);
    FoldCons(outcome, Start, first, [second] + []);
    FoldCons(outcome, s1, second, []);
  }
}
