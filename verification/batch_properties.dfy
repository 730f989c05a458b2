/**
  Properties of the row loop as a whole: it is a left fold, it prints one
  line per row in table order, the files it leaves are those of the last
  successful row per hostname, a failing row affects nothing but its own
  console line, and an escaping handler error stops the batch exactly there.
 */
module BatchProperties {
  import opened RowContext
  import opened Batch

  /** Some row renders successfully and has hostname `h`. */
  ghost predicate WrittenBy(outcome: RowRenderer, rows: seq<Row>, h: string)
    requires AllHaveHostname(rows)
  {
    exists i :: 0 <= i < |rows| && Succeeds(outcome, rows[i]) && rows[i][HostnameColumn] == h
  }

  /** A row after row `i` with the same hostname renders successfully. */
  ghost predicate OverwrittenLater(outcome: RowRenderer, rows: seq<Row>, i: nat)
    requires AllHaveHostname(rows)
    requires i < |rows|
  {
    exists j :: i < j < |rows| && Succeeds(outcome, rows[j])
                && rows[j][HostnameColumn] == rows[i][HostnameColumn]
  }

  /** Processing `a + b` is processing `a`, then `b` from where `a` left off. */
  lemma {:induction false} FoldAppend(outcome: RowRenderer, run: Run, a: seq<Row>, b: seq<Row>)
    requires AllHaveHostname(a) && AllHaveHostname(b)
    ensures AllHaveHostname(a + b)
    ensures Fold(outcome, run, a + b) == Fold(outcome, Fold(outcome, run, a), b)
    decreases |a|
  {
    if a != [] {
      assert (a + b)[0] == a[0];
      assert (a + b)[1..] == a[1..] + b;
      FoldAppend(outcome, Step(outcome, run, a[0]), a[1..], b);
    } else {
      assert a + b == b;
    }
  }

  /** The first row is processed first. */
  lemma FoldCons(outcome: RowRenderer, run: Run, row: Row, rest: seq<Row>)
    requires HostnameColumn in row && AllHaveHostname(rest)
    ensures AllHaveHostname([row] + rest)
    ensures Fold(outcome, run, [row] + rest) == Fold(outcome, Step(outcome, run, row), rest)
  {
    assert ([row] + rest)[0] == row && ([row] + rest)[1..] == rest;
  }

  /** The last row is processed last. */
  lemma FoldSnoc(outcome: RowRenderer, run: Run, rows: seq<Row>, row: Row)
    requires AllHaveHostname(rows) && HostnameColumn in row
    ensures AllHaveHostname(rows + [row])
    ensures Fold(outcome, run, rows + [row]) == Step(outcome, Fold(outcome, run, rows), row)
  {
    FoldAppend(outcome, run, rows, [row]);
    assert [row][1..] == [];
  }

  /** The lines printed by rows that do not crash, one per row, in order. */
  function Notices(outcome: RowRenderer, rows: seq<Row>): (ns: seq<Notice>)
    requires AllHaveHostname(rows) && NoCrash(outcome, rows)
    ensures |ns| == |rows|
    decreases |rows|
  {
    if rows == [] then []
    else
      NoCrashTail(outcome, rows);
      [RowNotice(outcome, rows[0])] + Notices(outcome, rows[1..])
  }

  /** The i-th of those lines is the i-th row's own line. */
  lemma {:induction false} NoticesInRowOrder(outcome: RowRenderer, rows: seq<Row>)
    requires AllHaveHostname(rows) && NoCrash(outcome, rows)
    ensures forall i :: 0 <= i < |rows| ==> Notices(outcome, rows)[i] == RowNotice(outcome, rows[i])
    decreases |rows|
  {
    if rows != [] {
      NoCrashTail(outcome, rows);
      NoticesInRowOrder(outcome, rows[1..]);
      var ns := Notices(outcome, rows);
      var rest := Notices(outcome, rows[1..]);
      assert ns == [RowNotice(outcome, rows[0])] + rest;
      forall i | 1 <= i < |rows|
        ensures ns[i] == RowNotice(outcome, rows[i])
      {
        assert ns[i] == rest[i - 1] && rows[1..][i - 1] == rows[i];
      }
    }
  }

  /** The rows after the first keep the hostname column and do not crash. */
  lemma NoCrashTail(outcome: RowRenderer, rows: seq<Row>)
    requires rows != [] && AllHaveHostname(rows) && NoCrash(outcome, rows)
    ensures HostnameColumn in rows[0] && !Crashes(outcome, rows[0])
    ensures AllHaveHostname(rows[1..]) && NoCrash(outcome, rows[1..])
  {
    forall i | 0 <= i < |rows| - 1
      ensures HostnameColumn in rows[1..][i] && !Crashes(outcome, rows[1..][i])
    {
      assert rows[1..][i] == rows[i + 1];
    }
  }

  /** Without an escaping handler error every row prints exactly one line,
      in table order, and the batch returns normally. */
  lemma {:induction false} OneLinePerRow(outcome: RowRenderer, run: Run, rows: seq<Row>)
    requires AllHaveHostname(rows) && NoCrash(outcome, rows)
    requires run.exit == Returned
    ensures Fold(outcome, run, rows).exit == Returned
    ensures Fold(outcome, run, rows).log == run.log + Notices(outcome, rows)
    decreases |rows|
  {
    if rows != [] {
      NoCrashTail(outcome, rows);
      var next := Step(outcome, run, rows[0]);
      var n0 := RowNotice(outcome, rows[0]);
      var rest := Notices(outcome, rows[1..]);
      assert next.exit == Returned && next.log == run.log + [n0];
      assert Fold(outcome, run, rows) == Fold(outcome, next, rows[1..]);
      OneLinePerRow(outcome, next, rows[1..]);
      assert Notices(outcome, rows) == [n0] + rest;
      assert run.log + [n0] + rest == run.log + ([n0] + rest);
    }
  }

  /** Appending a row adds at most its own hostname to those written. */
  lemma WrittenBySnoc(outcome: RowRenderer, init: seq<Row>, last: Row, h: string)
    requires AllHaveHostname(init) && HostnameColumn in last
    ensures AllHaveHostname(init + [last])
    ensures WrittenBy(outcome, init + [last], h) <==>
              WrittenBy(outcome, init, h) || (Succeeds(outcome, last) && last[HostnameColumn] == h)
  {
    var rows := init + [last];
    if WrittenBy(outcome, rows, h) {
      var i :| 0 <= i < |rows| && Succeeds(outcome, rows[i]) && rows[i][HostnameColumn] == h;
      if i < |init| {
        assert init[i] == rows[i];
      }
    }
    if WrittenBy(outcome, init, h) {
      var i :| 0 <= i < |init| && Succeeds(outcome, init[i]) && init[i][HostnameColumn] == h;
      assert rows[i] == init[i];
    }
    if Succeeds(outcome, last) && last[HostnameColumn] == h {
      assert rows[|init|] == last;
    }
  }

  /** Appending a row overwrites an earlier one only if it renders and has
      the same hostname. */
  lemma OverwrittenLaterSnoc(outcome: RowRenderer, init: seq<Row>, last: Row, i: nat)
    requires AllHaveHostname(init) && HostnameColumn in last && i < |init|
    ensures AllHaveHostname(init + [last])
    ensures OverwrittenLater(outcome, init + [last], i) <==>
              OverwrittenLater(outcome, init, i)
              || (Succeeds(outcome, last) && last[HostnameColumn] == init[i][HostnameColumn])
  {
    var rows := init + [last];
    assert rows[i] == init[i];
    if OverwrittenLater(outcome, rows, i) {
      var j :| i < j < |rows| && Succeeds(outcome, rows[j])
               && rows[j][HostnameColumn] == rows[i][HostnameColumn];
      if j < |init| {
        assert init[j] == rows[j];
      }
    }
    if OverwrittenLater(outcome, init, i) {
      var j :| i < j < |init| && Succeeds(outcome, init[j])
               && init[j][HostnameColumn] == init[i][HostnameColumn];
      assert rows[j] == init[j];
    }
    if Succeeds(outcome, last) && last[HostnameColumn] == init[i][HostnameColumn] {
      assert rows[|init|] == last;
    }
  }

  /** Last write wins: without an escaping handler error, the output files
      are exactly those of the existing files and the rows that rendered,
      and each holds the text of the last row that rendered for its hostname;
      a later failing row with the same hostname does not erase it. */
  lemma {:induction false} FilesAreLastSuccess(outcome: RowRenderer, run: Run, rows: seq<Row>)
    requires AllHaveHostname(rows) && NoCrash(outcome, rows)
    requires run.exit == Returned
    ensures var files := Fold(outcome, run, rows).files;
            && (forall h :: h in files <==> h in run.files || WrittenBy(outcome, rows, h))
            && (forall h :: h in run.files && !WrittenBy(outcome, rows, h) ==> files[h] == run.files[h])
            && (forall i ::
                  (0 <= i < |rows| && Succeeds(outcome, rows[i]) && !OverwrittenLater(outcome, rows, i)) ==>
                  files[rows[i][HostnameColumn]] == outcome(rows[i]).text)
    decreases |rows|
  {
    if rows == [] {
      return;
    }
    var init := rows[..|rows| - 1];
    var last := rows[|rows| - 1];
    assert rows == init + [last];
    assert NoCrash(outcome, init) by {
      forall i | 0 <= i < |init| ensures !Crashes(outcome, init[i]) {
        assert init[i] == rows[i];
      }
    }
    FilesAreLastSuccess(outcome, run, init);
    FoldSnoc(outcome, run, init, last);
    OneLinePerRow(outcome, run, init);
    var mid := Fold(outcome, run, init);
    var files := Fold(outcome, run, rows).files;
    assert files == Step(outcome, mid, last).files;
    forall h {
      WrittenBySnoc(outcome, init, last, h);
    }
    forall i | 0 <= i < |rows| && Succeeds(outcome, rows[i]) && !OverwrittenLater(outcome, rows, i)
      ensures files[rows[i][HostnameColumn]] == outcome(rows[i]).text
    {
      if i < |init| {
        assert init[i] == rows[i];
        OverwrittenLaterSnoc(outcome, init, last, i);
      }
    }
  }

  /** Printed lines are output only: a run's files, exit and further lines
      do not depend on what it printed before. */
  lemma StepIgnoresLog(outcome: RowRenderer, run: Run, row: Row)
    requires HostnameColumn in row
    ensures var clean := Step(outcome, run.(log := []), row);
            Step(outcome, run, row) == clean.(log := run.log + clean.log)
  {
  }

  lemma {:induction false} FoldIgnoresLog(outcome: RowRenderer, run: Run, rows: seq<Row>)
    requires AllHaveHostname(rows)
    ensures var clean := Fold(outcome, run.(log := []), rows);
            Fold(outcome, run, rows) == clean.(log := run.log + clean.log)
    decreases |rows|
  {
    if rows != [] {
      var blank := run.(log := []);
      var s := Step(outcome, run, rows[0]);
      var t := Step(outcome, blank, rows[0]);
      StepIgnoresLog(outcome, run, rows[0]);
      assert blank.(log := []) == blank;
      assert s.(log := []) == t.(log := []);
      FoldIgnoresLog(outcome, s, rows[1..]);
      FoldIgnoresLog(outcome, t, rows[1..]);
      assert Fold(outcome, run, rows) == Fold(outcome, s, rows[1..]);
      assert Fold(outcome, blank, rows) == Fold(outcome, t, rows[1..]);
      var b := Fold(outcome, s.(log := []), rows[1..]);
      assert s.log == run.log + t.log;
      assert run.log + t.log + b.log == run.log + (t.log + b.log);
    }
  }

  /** The files and exit half of failure isolation holds whatever the rows
      before the failing one do, even when one of them stops the batch. */
  lemma FailureLeavesFiles(outcome: RowRenderer, run: Run, before: seq<Row>, bad: Row, after: seq<Row>)
    requires AllHaveHostname(before) && AllHaveHostname(after) && HostnameColumn in bad
    requires !Succeeds(outcome, bad) && !Crashes(outcome, bad)
    ensures AllHaveHostname(before + [bad] + after) && AllHaveHostname(before + after)
    ensures Fold(outcome, run, before + [bad] + after).files == Fold(outcome, run, before + after).files
    ensures Fold(outcome, run, before + [bad] + after).exit == Fold(outcome, run, before + after).exit
  {
    var mid := Fold(outcome, run, before);
    var stepped := Step(outcome, mid, bad);
    assert before + [bad] + after == before + ([bad] + after);
    assert AllHaveHostname([bad] + after);
    FoldAppend(outcome, run, before, [bad] + after);
    assert ([bad] + after)[0] == bad && ([bad] + after)[1..] == after;
    FoldAppend(outcome, run, before, after);
    if mid.exit == Returned {
      assert stepped.(log := []) == mid.(log := []);
      FoldIgnoresLog(outcome, stepped, after);
      FoldIgnoresLog(outcome, mid, after);
    }
  }

  /** Failure isolation: a row whose rendering fails (without the handler
      itself raising) changes nothing but inserting its own error line. The
      batch with it leaves the same files and exit as the batch without it,
      and prints the same lines plus that one. */
  lemma FailureIsolation(outcome: RowRenderer, run: Run, before: seq<Row>, bad: Row, after: seq<Row>)
    requires AllHaveHostname(before) && AllHaveHostname(after) && HostnameColumn in bad
    requires NoCrash(outcome, before) && run.exit == Returned
    requires !Succeeds(outcome, bad) && !Crashes(outcome, bad)
    ensures AllHaveHostname(before + [bad] + after) && AllHaveHostname(before + after)
    ensures Fold(outcome, run, before + [bad] + after).files == Fold(outcome, run, before + after).files
    ensures Fold(outcome, run, before + [bad] + after).exit == Fold(outcome, run, before + after).exit
    ensures RowNotice(outcome, bad).IsRowError()
    ensures var mid := Fold(outcome, run, before).log;
            var without := Fold(outcome, run, before + after).log;
            && mid <= without
            && Fold(outcome, run, before + [bad] + after).log
               == mid + [RowNotice(outcome, bad)] + without[|mid|..]
  {
    var mid := Fold(outcome, run, before);
    OneLinePerRow(outcome, run, before);
    var stepped := Step(outcome, mid, bad);
    var n := RowNotice(outcome, bad);
    assert stepped == mid.(log := mid.log + [n]);
    assert before + [bad] + after == before + ([bad] + after);
    assert AllHaveHostname([bad] + after);
    FoldAppend(outcome, run, before, [bad] + after);
    assert ([bad] + after)[0] == bad && ([bad] + after)[1..] == after;
    FoldAppend(outcome, run, before, after);
    FoldIgnoresLog(outcome, stepped, after);
    FoldIgnoresLog(outcome, mid, after);
    assert stepped.(log := []) == mid.(log := []);
    var clean := Fold(outcome, mid.(log := []), after);
    assert (mid.log + [n]) + clean.log == mid.log + [n] + (mid.log + clean.log)[|mid.log|..];
  }

  /** A quote-less undefined-variable message stops the batch at that row:
      the files and lines are those of the rows before it, nothing after it
      is processed, and the error escapes the driver. */
  lemma StopsAtFirstCrash(outcome: RowRenderer, run: Run, rows: seq<Row>, k: nat)
    requires AllHaveHostname(rows) && run.exit == Returned
    requires k < |rows| && Crashes(outcome, rows[k])
    requires NoCrash(outcome, rows[..k])
    ensures AllHaveHostname(rows[..k])
    ensures var done := Fold(outcome, run, rows[..k]);
            && done.exit == Returned
            && Fold(outcome, run, rows) == done.(exit := Raised)
  {
    assert rows == rows[..k] + ([rows[k]] + rows[k + 1..]);
    FoldAppend(outcome, run, rows[..k], [rows[k]] + rows[k + 1..]);
    OneLinePerRow(outcome, run, rows[..k]);
    assert ([rows[k]] + rows[k + 1..])[0] == rows[k];
    assert ([rows[k]] + rows[k + 1..])[1..] == rows[k + 1..];
  }
}
