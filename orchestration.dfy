/** DatabaseMigrator::migrate: migrate every table rule that is not excluded,
    in order, and report progress after each one when a callback is set. */
module Orchestration {
  import opened Wrappers
  import opened Config
  import opened TableMigration

  /** What the databases answer during one run, per position in the table list:
      the endpoints migrate_table connects to, and the SELECT COUNT(*) of the
      source table before the migration starts and right after the table was
      migrated (None when that query does not return tuples). */
  datatype Environment = Environment(
    endpoints: nat -> Endpoints,
    countBefore: nat -> Option<nat>,
    countAfter: nat -> Option<nat>)

  /** The tables that were handed to migrate_table (by position), the progress
      values passed to the callback, and how the run ended. */
  datatype MigrationRun = MigrationRun(outcome: Outcome<MigrateError>, migrated: seq<nat>, reports: seq<int>)

  /** A count that could not be read adds nothing. */
  function CountOf(c: Option<nat>): nat {
    if c.Some? then c.value else 0
  }

  /** total_rows after the first n rules of the counting loop. */
  function TotalRows(tables: seq<TableConfig>, countBefore: nat -> Option<nat>, n: nat): nat
    requires n <= |tables|
  {
    if n == 0 then 0
    else TotalRows(tables, countBefore, n - 1) + (if tables[n - 1].exclude then 0 else CountOf(countBefore(n - 1)))
  }

  /** The value passed to the progress callback: (current_rows * 100) / total_rows. */
  function Progress(current: nat, total: nat): int
    requires total > 0
  {
    (current * 100) / total
  }

  /** The positions of the rules from i on that are not excluded, in order. */
  function Included(tables: seq<TableConfig>, i: nat): seq<nat>
    requires i <= |tables|
    decreases |tables| - i
  {
    if i == |tables| then []
    else (if tables[i].exclude then [] else [i]) + Included(tables, i + 1)
  }

  /** How migrate_table ends for each rule of the list. */
  function TableOutcomes(tables: seq<TableConfig>, env: Environment): nat -> Outcome<MigrateError> {
    (k: nat) => if k < |tables| then MigrateTableSpec(tables[k], env.endpoints(k)).outcome else Pass
  }

  /** The migration loop from rule i on, with the running totals so far;
      outcome(k) is how migrate_table ends for rule k and countAfter(k) the
      row count read right after it. */
  function MigrateFrom(tables: seq<TableConfig>, i: nat, callback: bool, total: nat, current: nat,
                       outcome: nat -> Outcome<MigrateError>, countAfter: nat -> Option<nat>,
                       migrated: seq<nat>, reports: seq<int>): MigrationRun
    requires i <= |tables|
    decreases |tables| - i
  {
    if i == |tables| then MigrationRun(Pass, migrated, reports)
    else if tables[i].exclude then MigrateFrom(tables, i + 1, callback, total, current, outcome, countAfter, migrated, reports)
    else if outcome(i).Fail? then MigrationRun(outcome(i), migrated + [i], reports)
    else if !callback then MigrateFrom(tables, i + 1, callback, total, current, outcome, countAfter, migrated + [i], reports)
    else
      var cur := current + CountOf(countAfter(i));
      if total == 0 then MigrationRun(Fail(ProgressDivisionByZero), migrated + [i], reports)
      else MigrateFrom(tables, i + 1, callback, total, cur, outcome, countAfter, migrated + [i], reports + [Progress(cur, total)])
  }

  /** migrate: refuse to run without a configuration, count the rows of the
      included tables first when a callback is set, then migrate. */
  function RunMigration(configured: bool, tables: seq<TableConfig>, callback: bool, env: Environment): MigrationRun {
    if !configured then MigrationRun(Fail(NotConfigured), [], [])
    else
      var total := if callback then TotalRows(tables, env.countBefore, |tables|) else 0;
      MigrateFrom(tables, 0, callback, total, 0, TableOutcomes(tables, env), env.countAfter, [], [])
  }

  // ------------------------------------------------------------- properties

  /** Included lists exactly the positions of the rules that are not excluded. */
  lemma {:induction false} IncludedMembers(tables: seq<TableConfig>, i: nat)
    requires i <= |tables|
    decreases |tables| - i
    ensures forall k :: k in Included(tables, i) <==> i <= k < |tables| && !tables[k].exclude
  {
    if i < |tables| {
      IncludedMembers(tables, i + 1);
    }
  }

  /** Included lists the positions in ascending order. */
  lemma {:induction false} IncludedAscending(tables: seq<TableConfig>, i: nat)
    requires i <= |tables|
    decreases |tables| - i
    ensures forall a, b :: 0 <= a < b < |Included(tables, i)| ==> Included(tables, i)[a] < Included(tables, i)[b]
  {
    if i < |tables| {
      IncludedAscending(tables, i + 1);
      IncludedMembers(tables, i + 1);
      var inc := Included(tables, i + 1);
      if !tables[i].exclude {
        forall a, b | 0 <= a < b < |Included(tables, i)|
          ensures Included(tables, i)[a] < Included(tables, i)[b]
        {
          assert Included(tables, i)[b] == inc[b - 1];
          assert inc[b - 1] in inc;
          if a > 0 {
            assert Included(tables, i)[a] == inc[a - 1];
          }
        }
      }
    }
  }

  /** The tables handed to migrate_table are the included ones, in order: a
      prefix of them in every run, and all of them when the run passes. */
  lemma {:induction false} MigratedPrefix(tables: seq<TableConfig>, i: nat, callback: bool, total: nat, current: nat,
                                          outcome: nat -> Outcome<MigrateError>, countAfter: nat -> Option<nat>,
                                          migrated: seq<nat>, reports: seq<int>)
    requires i <= |tables|
    decreases |tables| - i
    ensures var r := MigrateFrom(tables, i, callback, total, current, outcome, countAfter, migrated, reports);
      && |migrated| <= |r.migrated| <= |migrated| + |Included(tables, i)|
      && r.migrated == migrated + Included(tables, i)[..|r.migrated| - |migrated|]
      && (r.outcome.Pass? ==> r.migrated == migrated + Included(tables, i))
  {
    if i < |tables| {
      var r := MigrateFrom(tables, i, callback, total, current, outcome, countAfter, migrated, reports);
      if tables[i].exclude {
        assert Included(tables, i) == Included(tables, i + 1);
        assert r == MigrateFrom(tables, i + 1, callback, total, current, outcome, countAfter, migrated, reports);
        MigratedPrefix(tables, i + 1, callback, total, current, outcome, countAfter, migrated, reports);
      } else {
        var inc := Included(tables, i + 1);
        assert Included(tables, i) == [i] + inc;
        if outcome(i).Pass? && (!callback || total != 0) {
          var cur := if callback then current + CountOf(countAfter(i)) else current;
          var reports' := if callback then reports + [Progress(cur, total)] else reports;
          var next := MigrateFrom(tables, i + 1, callback, total, cur, outcome, countAfter, migrated + [i], reports');
          assert r == next;
          MigratedPrefix(tables, i + 1, callback, total, cur, outcome, countAfter, migrated + [i], reports');
          PrefixStep(i, inc, migrated, next.migrated);
        } else {
          assert r.migrated == migrated + [i];
          assert ([i] + inc)[..1] == [i];
        }
      }
    }
  }

  lemma PrefixStep(i: nat, inc: seq<nat>, migrated: seq<nat>, out: seq<nat>)
    requires |migrated| + 1 <= |out| <= |migrated| + 1 + |inc|
    requires out == (migrated + [i]) + inc[..|out| - |migrated| - 1]
    ensures out == migrated + ([i] + inc)[..|out| - |migrated|]
  {
    assert ([i] + inc)[..|out| - |migrated|] == [i] + inc[..|out| - |migrated| - 1];
  }

  /** A run that stops on a table's own failure stops right after handing that
      table to migrate_table, with that table's error. */
  lemma {:induction false} FailureStopsAtTable(tables: seq<TableConfig>, i: nat, callback: bool, total: nat, current: nat,
                                               outcome: nat -> Outcome<MigrateError>, countAfter: nat -> Option<nat>,
                                               migrated: seq<nat>, reports: seq<int>)
    requires i <= |tables|
    decreases |tables| - i
    ensures var r := MigrateFrom(tables, i, callback, total, current, outcome, countAfter, migrated, reports);
      r.outcome.Fail? && r.outcome.error != ProgressDivisionByZero ==>
        |r.migrated| > 0 && outcome(r.migrated[|r.migrated| - 1]) == r.outcome
  {
    if i < |tables| {
      if tables[i].exclude {
        FailureStopsAtTable(tables, i + 1, callback, total, current, outcome, countAfter, migrated, reports);
      } else if outcome(i).Pass? && (!callback || total != 0) {
        var cur := if callback then current + CountOf(countAfter(i)) else current;
        var reports' := if callback then reports + [Progress(cur, total)] else reports;
        FailureStopsAtTable(tables, i + 1, callback, total, cur, outcome, countAfter, migrated + [i], reports');
      }
    }
  }

  /** Excluded rules are never migrated: every position the loop hands to
      migrate_table names a rule that is not excluded, and a loop that
      passes has handed over each of them exactly once, in order. */
  lemma MigratedAreIncluded(tables: seq<TableConfig>, callback: bool, total: nat,
                            outcome: nat -> Outcome<MigrateError>, countAfter: nat -> Option<nat>)
    ensures var r := MigrateFrom(tables, 0, callback, total, 0, outcome, countAfter, [], []);
      && (forall k :: k in r.migrated ==> k < |tables| && !tables[k].exclude)
      && (r.outcome.Pass? ==> r.migrated == Included(tables, 0))
  {
    MigratedPrefix(tables, 0, callback, total, 0, outcome, countAfter, [], []);
    IncludedMembers(tables, 0);
    var r := MigrateFrom(tables, 0, callback, total, 0, outcome, countAfter, [], []);
    forall k | k in r.migrated
      ensures k < |tables| && !tables[k].exclude
    {
      var inc := Included(tables, 0);
      assert r.migrated == inc[..|r.migrated|];
      assert k in inc;
    }
  }

  /** The same for a configured run. */
  lemma RunMigratesIncluded(tables: seq<TableConfig>, callback: bool, env: Environment)
    ensures var r := RunMigration(true, tables, callback, env);
      && (forall k :: k in r.migrated ==> k < |tables| && !tables[k].exclude)
      && (r.outcome.Pass? ==> r.migrated == Included(tables, 0))
  {
    var total := if callback then TotalRows(tables, env.countBefore, |tables|) else 0;
    MigratedAreIncluded(tables, callback, total, TableOutcomes(tables, env), env.countAfter);
  }

  /** A configured run that a table's failure stopped ends with that table:
      the last rule handed to migrate_table failed with the run's error. */
  lemma RunStopsAtFailedTable(tables: seq<TableConfig>, callback: bool, env: Environment)
    ensures var r := RunMigration(true, tables, callback, env);
      r.outcome.Fail? && r.outcome.error != ProgressDivisionByZero ==>
        && r.migrated != []
        && r.migrated[|r.migrated| - 1] < |tables|
        && MigrateTableSpec(tables[r.migrated[|r.migrated| - 1]], env.endpoints(r.migrated[|r.migrated| - 1])).outcome == r.outcome
  {
    var total := if callback then TotalRows(tables, env.countBefore, |tables|) else 0;
    var outcome := TableOutcomes(tables, env);
    FailureStopsAtTable(tables, 0, callback, total, 0, outcome, env.countAfter, [], []);
    RunMigratesIncluded(tables, callback, env);
    var r := RunMigration(true, tables, callback, env);
    if r.outcome.Fail? && r.outcome.error != ProgressDivisionByZero {
      var last := r.migrated[|r.migrated| - 1];
      assert last in r.migrated;
      assert outcome(last) == r.outcome;
    }
  }

  /** The counting loop ignores excluded rules: two environments that agree on
      the counts of the included rules give the same total. */
  lemma {:induction false} TotalIgnoresExcluded(tables: seq<TableConfig>, c1: nat -> Option<nat>, c2: nat -> Option<nat>, n: nat)
    requires n <= |tables|
    requires forall k :: 0 <= k < n && !tables[k].exclude ==> c1(k) == c2(k)
    ensures TotalRows(tables, c1, n) == TotalRows(tables, c2, n)
  {
    if n > 0 {
      TotalIgnoresExcluded(tables, c1, c2, n - 1);
    }
  }

  lemma {:induction false} MigrateFromIgnoresExcluded(tables: seq<TableConfig>, i: nat, callback: bool, total: nat, current: nat,
                                                      o1: nat -> Outcome<MigrateError>, c1: nat -> Option<nat>,
                                                      o2: nat -> Outcome<MigrateError>, c2: nat -> Option<nat>,
                                                      migrated: seq<nat>, reports: seq<int>)
    requires i <= |tables|
    requires forall k :: i <= k < |tables| && !tables[k].exclude ==> o1(k) == o2(k) && c1(k) == c2(k)
    decreases |tables| - i
    ensures MigrateFrom(tables, i, callback, total, current, o1, c1, migrated, reports) ==
            MigrateFrom(tables, i, callback, total, current, o2, c2, migrated, reports)
  {
    if i < |tables| {
      if !tables[i].exclude {
        var cur := current + CountOf(c1(i));
        MigrateFromIgnoresExcluded(tables, i + 1, callback, total, current, o1, c1, o2, c2, migrated + [i], reports);
        if total != 0 {
          MigrateFromIgnoresExcluded(tables, i + 1, callback, total, cur, o1, c1, o2, c2, migrated + [i], reports + [Progress(cur, total)]);
        }
      } else {
        MigrateFromIgnoresExcluded(tables, i + 1, callback, total, current, o1, c1, o2, c2, migrated, reports);
      }
    }
  }

  /** Two environments agree on the included rules. */
  predicate AgreeOnIncluded(tables: seq<TableConfig>, e1: Environment, e2: Environment) {
    forall k :: 0 <= k < |tables| && !tables[k].exclude ==>
      && MigrateTableSpec(tables[k], e1.endpoints(k)).outcome == MigrateTableSpec(tables[k], e2.endpoints(k)).outcome
      && e1.countBefore(k) == e2.countBefore(k)
      && e1.countAfter(k) == e2.countAfter(k)
  }

  /** Excluded rules are neither migrated nor counted: whatever the databases
      would answer for them, the run is the same. */
  lemma RunIgnoresExcluded(configured: bool, tables: seq<TableConfig>, callback: bool, e1: Environment, e2: Environment)
    requires AgreeOnIncluded(tables, e1, e2)
    ensures RunMigration(configured, tables, callback, e1) == RunMigration(configured, tables, callback, e2)
  {
    if configured {
      TotalIgnoresExcluded(tables, e1.countBefore, e2.countBefore, |tables|);
      var total := if callback then TotalRows(tables, e1.countBefore, |tables|) else 0;
      MigrateFromIgnoresExcluded(tables, 0, callback, total, 0, TableOutcomes(tables, e1), e1.countAfter,
                                 TableOutcomes(tables, e2), e2.countAfter, [], []);
    }
  }

  /** Without a callback nothing is reported, and only a table's own failure stops the run. */
  lemma {:induction false} SilentWithoutCallback(tables: seq<TableConfig>, i: nat, total: nat, current: nat,
                                                 outcome: nat -> Outcome<MigrateError>, countAfter: nat -> Option<nat>,
                                                 migrated: seq<nat>)
    requires i <= |tables|
    requires forall k :: outcome(k) != Fail(ProgressDivisionByZero)
    decreases |tables| - i
    ensures var r := MigrateFrom(tables, i, false, total, current, outcome, countAfter, migrated, []);
      r.reports == [] && r.outcome != Fail(ProgressDivisionByZero)
  {
    if i < |tables| {
      if tables[i].exclude {
        SilentWithoutCallback(tables, i + 1, total, current, outcome, countAfter, migrated);
      } else {
        SilentWithoutCallback(tables, i + 1, total, current, outcome, countAfter, migrated + [i]);
      }
    }
  }

  /** A single table migration never fails with the progress error. */
  lemma TableNeverDividesByZero(t: TableConfig, e: Endpoints)
    ensures MigrateTableSpec(t, e).outcome != Fail(ProgressDivisionByZero)
  {
    if e.sourceReachable && e.targetReachable && e.sourceServer([], SelectAll(t)).TuplesOk? &&
       !(t.createIfMissing && !e.targetServer([], Ddl.DdlText(t)).CommandOk?) {
      var res := e.sourceServer([], SelectAll(t));
      InsertRowsSent(t, res.fields, res.rows, 0, e.targetServer, DdlLog(t));
    }
  }

  /** A configured run without a callback reports nothing and never divides. */
  lemma RunSilentWithoutCallback(tables: seq<TableConfig>, env: Environment)
    ensures var r := RunMigration(true, tables, false, env);
      r.reports == [] && r.outcome != Fail(ProgressDivisionByZero)
  {
    var outcome := TableOutcomes(tables, env);
    forall k: nat
      ensures outcome(k) != Fail(ProgressDivisionByZero)
    {
      if k < |tables| {
        TableNeverDividesByZero(tables[k], env.endpoints(k));
      }
    }
    SilentWithoutCallback(tables, 0, 0, 0, outcome, env.countAfter, []);
  }

  lemma MulCancel(x: int, y: int, d: nat)
    requires d > 0 && x * d < y * d
    ensures x < y
  {
    assert (y - x) * d > 0;
  }

  /** Progress is monotone in the number of rows copied. */
  lemma ProgressMonotone(a: nat, b: nat, total: nat)
    requires a <= b && total > 0
    ensures Progress(a, total) <= Progress(b, total)
  {
    var qa, qb := (a * 100) / total, (b * 100) / total;
    assert qa * total <= a * 100;
    assert b * 100 < (qb + 1) * total;
    MulCancel(qa, qb + 1, total);
  }

  /** Progress stays within 0..100 while no more rows were copied than counted. */
  lemma ProgressAtMostHundred(a: nat, total: nat)
    requires a <= total && total > 0
    ensures 0 <= Progress(a, total) <= 100
  {
    var q := (a * 100) / total;
    assert q * total <= a * 100 <= total * 100;
    MulCancel(q, 101, total);
  }

  predicate NonDecreasing(s: seq<int>) {
    forall a, b :: 0 <= a < b < |s| ==> s[a] <= s[b]
  }

  /** Reports never decrease: current_rows only grows, and the total is fixed. */
  lemma {:induction false} ReportsNondecreasing(tables: seq<TableConfig>, i: nat, total: nat, current: nat,
                                                outcome: nat -> Outcome<MigrateError>, countAfter: nat -> Option<nat>,
                                                migrated: seq<nat>, reports: seq<int>)
    requires i <= |tables| && total > 0
    requires NonDecreasing(reports)
    requires reports != [] ==> reports[|reports| - 1] <= Progress(current, total)
    decreases |tables| - i
    ensures NonDecreasing(MigrateFrom(tables, i, true, total, current, outcome, countAfter, migrated, reports).reports)
  {
    if i < |tables| {
      if tables[i].exclude {
        ReportsNondecreasing(tables, i + 1, total, current, outcome, countAfter, migrated, reports);
      } else if outcome(i).Pass? {
        var cur := current + CountOf(countAfter(i));
        ProgressMonotone(current, cur, total);
        var reports' := reports + [Progress(cur, total)];
        ReportsNondecreasing(tables, i + 1, total, cur, outcome, countAfter, migrated + [i], reports');
      }
    }
  }

  /** With a zero total no report is ever made: the first included table
      that migrates divides by zero. */
  lemma {:induction false} ZeroTotalReportsNothing(tables: seq<TableConfig>, i: nat, current: nat,
                                                   outcome: nat -> Outcome<MigrateError>, countAfter: nat -> Option<nat>,
                                                   migrated: seq<nat>)
    requires i <= |tables|
    decreases |tables| - i
    ensures var r := MigrateFrom(tables, i, true, 0, current, outcome, countAfter, migrated, []);
      && r.reports == []
      && (r.outcome.Pass? ==> Included(tables, i) == [])
  {
    if i < |tables| && tables[i].exclude {
      ZeroTotalReportsNothing(tables, i + 1, current, outcome, countAfter, migrated);
    }
  }

  /** The reports of a configured run never decrease. */
  lemma RunReportsNondecreasing(tables: seq<TableConfig>, env: Environment)
    ensures NonDecreasing(RunMigration(true, tables, true, env).reports)
  {
    var total := TotalRows(tables, env.countBefore, |tables|);
    if total > 0 {
      ReportsNondecreasing(tables, 0, total, 0, TableOutcomes(tables, env), env.countAfter, [], []);
    } else {
      ZeroTotalReportsNothing(tables, 0, 0, TableOutcomes(tables, env), env.countAfter, []);
    }
  }

  /** A callback run whose included tables all counted zero rows cannot pass
      once any table is included: the progress step divides by zero. */
  lemma ZeroTotalFails(tables: seq<TableConfig>, env: Environment)
    requires TotalRows(tables, env.countBefore, |tables|) == 0 && Included(tables, 0) != []
    ensures RunMigration(true, tables, true, env).outcome.Fail?
  {
    ZeroTotalReportsNothing(tables, 0, 0, TableOutcomes(tables, env), env.countAfter, []);
  }

  /** total_rows only grows along the counting loop. */
  lemma {:induction false} TotalMonotone(tables: seq<TableConfig>, countBefore: nat -> Option<nat>, m: nat, n: nat)
    requires m <= n <= |tables|
    decreases n - m
    ensures TotalRows(tables, countBefore, m) <= TotalRows(tables, countBefore, n)
  {
    if m < n {
      TotalMonotone(tables, countBefore, m, n - 1);
    }
  }

  predicate Percentages(s: seq<int>) {
    forall k :: 0 <= k < |s| ==> 0 <= s[k] <= 100
  }

  /** When no table gains rows while it is migrated, current_rows never
      passes total_rows, so every report is between 0 and 100. */
  lemma {:induction false} ReportsBounded(tables: seq<TableConfig>, i: nat, total: nat, current: nat,
                                          outcome: nat -> Outcome<MigrateError>, countBefore: nat -> Option<nat>,
                                          countAfter: nat -> Option<nat>, migrated: seq<nat>, reports: seq<int>)
    requires i <= |tables| && total == TotalRows(tables, countBefore, |tables|) && total > 0
    requires forall k :: 0 <= k < |tables| ==> CountOf(countAfter(k)) <= CountOf(countBefore(k))
    requires current <= TotalRows(tables, countBefore, i)
    requires Percentages(reports)
    decreases |tables| - i
    ensures Percentages(MigrateFrom(tables, i, true, total, current, outcome, countAfter, migrated, reports).reports)
  {
    if i < |tables| {
      if tables[i].exclude {
        ReportsBounded(tables, i + 1, total, current, outcome, countBefore, countAfter, migrated, reports);
      } else if outcome(i).Pass? {
        var cur := current + CountOf(countAfter(i));
        assert cur <= TotalRows(tables, countBefore, i + 1);
        TotalMonotone(tables, countBefore, i + 1, |tables|);
        ProgressAtMostHundred(cur, total);
        ReportsBounded(tables, i + 1, total, cur, outcome, countBefore, countAfter, migrated + [i], reports + [Progress(cur, total)]);
      }
    }
  }

  /** The progress of a configured run stays within 0..100 when no table gains rows. */
  lemma RunReportsBounded(tables: seq<TableConfig>, env: Environment)
    requires forall k :: 0 <= k < |tables| ==> CountOf(env.countAfter(k)) <= CountOf(env.countBefore(k))
    ensures Percentages(RunMigration(true, tables, true, env).reports)
  {
    var total := TotalRows(tables, env.countBefore, |tables|);
    if total > 0 {
      ReportsBounded(tables, 0, total, 0, TableOutcomes(tables, env), env.countBefore, env.countAfter, [], []);
    } else {
      ZeroTotalReportsNothing(tables, 0, 0, TableOutcomes(tables, env), env.countAfter, []);
    }
  }
}
