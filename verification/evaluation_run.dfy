/** The evaluation loop of `HomeworkEvaluationSystem.run`: one result record per
    scanned file, the early returns, and the closing counts and statistics.
    Reading a file, asking the model and writing a report are outside the
    model: their outcome for each file is given as an `Attempt`. */
module EvaluationRun {
  import opened Wrappers
  import opened Text
  import Extractor
  import ScoreExtraction

  /** How `save_individual_report` ended for one file. */
  datatype SaveOutcome = Saved | SaveRaised(message: string)

  /** How the per-file work ended: `read_code`, `get_prompt` or `evaluate`
      raised with `message`, or the model answered with `evaluation` and the
      individual report, when asked for, ended as `save`. */
  datatype Attempt =
    | Raised(message: string)
    | Answered(evaluation: string, save: SaveOutcome)

  /** One scanned file together with what happened when it was evaluated. */
  datatype FileRun = FileRun(file: Extractor.FileInfo, attempt: Attempt)

  /** One entry of `self.results` (the absolute path and the timestamp are left out). */
  datatype ResultRecord = ResultRecord(
    studentName: string,
    fileName: string,
    relativePath: string,
    evaluation: string,
    score: Option<int>)

  predicate Describes(r: ResultRecord, f: Extractor.FileInfo)
  {
    r.studentName == f.studentName && r.fileName == f.fileName && r.relativePath == f.relativePath
  }

  /** The text a failed record carries in place of an evaluation. */
  function FailureText(message: string): (t: string)
    ensures StartsWith(t, "评价失败: ")
    ensures t[|"评价失败: "|..] == message
  {
    "评价失败: " + message
  }

  /** The record appended after the model answered. */
  function Success(f: Extractor.FileInfo, evaluation: string): (r: ResultRecord)
    ensures Describes(r, f) && r.evaluation == evaluation
    ensures r.score == ScoreExtraction.ExtractScore(evaluation)
    ensures r.score.None? || 0 <= r.score.value <= 100
  {
    ResultRecord(f.studentName, f.fileName, f.relativePath, evaluation, ScoreExtraction.ExtractScore(evaluation))
  }

  /** The record the exception handler appends. */
  function Failure(f: Extractor.FileInfo, message: string): (r: ResultRecord)
    ensures Describes(r, f) && r.score.None?
    ensures r.evaluation == FailureText(message)
  {
    ResultRecord(f.studentName, f.fileName, f.relativePath, FailureText(message), None)
  }

  // ------------------------------------------------------- one file, as written

  /** Whether the individual report raised after the success record was appended. */
  predicate SaveFailed(run: FileRun, saveIndividual: bool)
  {
    saveIndividual && run.attempt.Answered? && run.attempt.save.SaveRaised?
  }

  /** What one iteration of the loop appends, as the code is written: the
      success record goes in before the report is saved, so a failing save
      adds a failure record for the same file after it. */
  function FileRecordsAsWritten(run: FileRun, saveIndividual: bool): (r: seq<ResultRecord>)
    ensures |r| == (if SaveFailed(run, saveIndividual) then 2 else 1)
    ensures forall i :: 0 <= i < |r| ==> Describes(r[i], run.file)
    ensures r[0].score.Some? ==> run.attempt.Answered?
  {
    match run.attempt
    case Raised(m) => [Failure(run.file, m)]
    case Answered(ev, save) =>
      if saveIndividual && save.SaveRaised? then [Success(run.file, ev), Failure(run.file, save.message)]
      else [Success(run.file, ev)]
  }

  /** The discrepancy: a file whose report fails to save leaves two records,
      the first of them a success. */
  lemma DoubleRecordForOneFile(f: Extractor.FileInfo, evaluation: string, message: string)
    ensures var rs := FileRecordsAsWritten(FileRun(f, Answered(evaluation, SaveRaised(message))), true);
            |rs| == 2 && rs[0].evaluation == evaluation && rs[1].evaluation == FailureText(message)
  {
  }

  // ------------------------------------------------------ one file, corrected

  /** The whole per-file block ran without raising. */
  predicate Succeeds(run: FileRun, saveIndividual: bool)
  {
    run.attempt.Answered? && (saveIndividual ==> run.attempt.save.Saved?)
  }

  /** Exactly one record per file: the success record when the whole per-file
      block succeeded, otherwise the failure record of the first exception. */
  function FileRecord(run: FileRun, saveIndividual: bool): (r: ResultRecord)
    ensures Describes(r, run.file)
    ensures Succeeds(run, saveIndividual) ==>
              r.evaluation == run.attempt.evaluation &&
              r.score == ScoreExtraction.ExtractScore(run.attempt.evaluation)
    ensures !Succeeds(run, saveIndividual) ==> r.score.None? && StartsWith(r.evaluation, "评价失败: ")
    ensures r.score.None? || 0 <= r.score.value <= 100
  {
    match run.attempt
    case Raised(m) => Failure(run.file, m)
    case Answered(ev, save) =>
      if saveIndividual && save.SaveRaised? then Failure(run.file, save.message)
      else Success(run.file, ev)
  }

  /** The corrected record is the one the code as written appends last, and
      when no save fails it is the only one. */
  lemma FileRecordIsLastAsWritten(run: FileRun, saveIndividual: bool)
    ensures var rs := FileRecordsAsWritten(run, saveIndividual);
            FileRecord(run, saveIndividual) == rs[|rs| - 1]
    ensures !SaveFailed(run, saveIndividual) ==>
            FileRecordsAsWritten(run, saveIndividual) == [FileRecord(run, saveIndividual)]
  {
  }

  // ---------------------------------------------------------------- the loop

  /** The records of the loop, corrected: one per file, in scan order. */
  function Records(runs: seq<FileRun>, saveIndividual: bool): (r: seq<ResultRecord>)
    ensures |r| == |runs|
    ensures forall i :: 0 <= i < |runs| ==> r[i] == FileRecord(runs[i], saveIndividual)
  {
    if |runs| == 0 then []
    else [FileRecord(runs[0], saveIndividual)] + Records(runs[1..], saveIndividual)
  }

  /** Number of files whose report fails to save after the success record went in. */
  function SaveFailures(runs: seq<FileRun>, saveIndividual: bool): (n: nat)
    ensures n <= |runs|
    ensures !saveIndividual ==> n == 0
  {
    if |runs| == 0 then 0
    else (if SaveFailed(runs[0], saveIndividual) then 1 else 0) + SaveFailures(runs[1..], saveIndividual)
  }

  /** The records of the loop as written: one extra record per failing save. */
  function RecordsAsWritten(runs: seq<FileRun>, saveIndividual: bool): (r: seq<ResultRecord>)
    ensures |r| == |runs| + SaveFailures(runs, saveIndividual)
    ensures !saveIndividual ==> r == Records(runs, false)
  {
    if |runs| == 0 then []
    else
      FileRecordIsLastAsWritten(runs[0], saveIndividual);
      FileRecordsAsWritten(runs[0], saveIndividual) + RecordsAsWritten(runs[1..], saveIndividual)
  }

  /** Without individual reports the code as written already keeps one record per file. */
  lemma {:induction false} AsWrittenWithoutReports(runs: seq<FileRun>)
    ensures RecordsAsWritten(runs, false) == Records(runs, false)
    decreases |runs|
  {
    if |runs| > 0 {
      AsWrittenWithoutReports(runs[1..]);
      FileRecordIsLastAsWritten(runs[0], false);
    }
  }

  // ------------------------------------------------------------ counts, stats

  /** The scores that are not `None`, in order (`[r['score'] for r in results if ... is not None]`). */
  function Scores(rs: seq<ResultRecord>): (r: seq<int>)
    ensures |r| <= |rs|
    ensures forall x :: x in r <==> exists i :: 0 <= i < |rs| && rs[i].score == Some(x)
  {
    if |rs| == 0 then []
    else
      var rest := Scores(rs[1..]);
      assert forall i :: 0 < i < |rs| ==> rs[i] == rs[1..][i - 1];
      (if rs[0].score.Some? then [rs[0].score.value] else []) + rest
  }

  /** Collecting the scores works record by record, in order: a list split
      in two is collected part by part, and one record gives its score or
      nothing. */
  lemma {:induction false} ScoresIsFilter(a: seq<ResultRecord>, b: seq<ResultRecord>)
    ensures Scores(a + b) == Scores(a) + Scores(b)
    ensures |a| == 1 ==> Scores(a) == (if a[0].score.Some? then [a[0].score.value] else [])
    decreases |a|
  {
    if |a| > 0 {
      assert (a + b)[0] == a[0];
      assert (a + b)[1..] == a[1..] + b;
      ScoresIsFilter(a[1..], b);
      var h := if a[0].score.Some? then [a[0].score.value] else [];
      assert Scores(a + b) == h + Scores(a[1..] + b);
      assert Scores(a) == h + Scores(a[1..]);
      ConcatAssoc(h, Scores(a[1..]), Scores(b));
      if |a| == 1 {
        assert a[1..] == [];
      }
    } else {
      assert a + b == b;
    }
  }

  /** The sum of the scores that are not `None`, read straight off the records. */
  function ScoreSum(rs: seq<ResultRecord>): int
  {
    if |rs| == 0 then 0
    else (if rs[0].score.Some? then rs[0].score.value else 0) + ScoreSum(rs[1..])
  }

  /** `sum(scores)` is the records' score sum. */
  lemma {:induction false} ScoresSum(rs: seq<ResultRecord>)
    ensures Sum(Scores(rs)) == ScoreSum(rs)
    decreases |rs|
  {
    if |rs| > 0 {
      ScoresSum(rs[1..]);
      var rest := Scores(rs[1..]);
      if rs[0].score.Some? {
        var r := [rs[0].score.value] + rest;
        assert r[1..] == rest;
      } else {
        assert [] + rest == rest;
      }
    }
  }

  /** The count printed as `成功`: records whose score is not `None`. */
  function Succeeded(rs: seq<ResultRecord>): nat
  {
    |Scores(rs)|
  }

  /** The count printed as `失败`: records whose score is `None`. */
  function Failed(rs: seq<ResultRecord>): nat
  {
    if |rs| == 0 then 0 else (if rs[0].score.None? then 1 else 0) + Failed(rs[1..])
  }

  /** Every record is counted exactly once, as a success or as a failure. */
  lemma {:induction false} CountsPartition(rs: seq<ResultRecord>)
    ensures Succeeded(rs) + Failed(rs) == |rs|
    decreases |rs|
  {
    if |rs| > 0 {
      CountsPartition(rs[1..]);
    }
  }

  /** `any(r.get('score') for r in results)`: some score is present and non-zero. */
  predicate AnyTruthyScore(rs: seq<ResultRecord>)
  {
    exists i :: 0 <= i < |rs| && rs[i].score.Some? && rs[i].score.value != 0
  }

  function MaxOf(xs: seq<int>): (m: int)
    requires |xs| > 0
    ensures m in xs
    ensures forall i :: 0 <= i < |xs| ==> xs[i] <= m
  {
    if |xs| == 1 then xs[0]
    else
      var t := MaxOf(xs[1..]);
      assert forall i :: 1 <= i < |xs| ==> xs[i] == xs[1..][i - 1];
      if xs[0] >= t then xs[0] else t
  }

  function MinOf(xs: seq<int>): (m: int)
    requires |xs| > 0
    ensures m in xs
    ensures forall i :: 0 <= i < |xs| ==> m <= xs[i]
  {
    if |xs| == 1 then xs[0]
    else
      var t := MinOf(xs[1..]);
      assert forall i :: 1 <= i < |xs| ==> xs[i] == xs[1..][i - 1];
      if xs[0] <= t then xs[0] else t
  }

  /** What the statistics block prints; the average is `total / count`. */
  datatype Stats = Stats(count: nat, total: int, highest: int, lowest: int)

  /** The statistics block: shown only when some score is truthy, so a run
      whose only scores are 0 prints none; then over every present score. */
  function Statistics(rs: seq<ResultRecord>): (r: Option<Stats>)
    ensures r.Some? <==> AnyTruthyScore(rs)
    ensures r.Some? ==>
      && r.value.count == Succeeded(rs) > 0
      && r.value.total == ScoreSum(rs)
      && r.value.lowest <= r.value.highest
      && (exists i :: 0 <= i < |rs| && rs[i].score == Some(r.value.highest))
      && (exists i :: 0 <= i < |rs| && rs[i].score == Some(r.value.lowest))
      && (forall i :: 0 <= i < |rs| && rs[i].score.Some? ==>
            r.value.lowest <= rs[i].score.value <= r.value.highest)
  {
    if |rs| > 0 && AnyTruthyScore(rs) then
      var scores := Scores(rs);
      var i :| 0 <= i < |rs| && rs[i].score.Some? && rs[i].score.value != 0;
      assert rs[i].score.value in scores;
      ScoresSum(rs);
      var st := Stats(|scores|, Sum(scores), MaxOf(scores), MinOf(scores));
      assert forall j :: 0 <= j < |rs| && rs[j].score.Some? ==> rs[j].score.value in scores;
      Some(st)
    else None
  }

  /** Scores produced by the loop lie in [0, 100], and so do the statistics over them. */
  lemma RunScoresInRange(runs: seq<FileRun>, saveIndividual: bool)
    ensures forall x :: x in Scores(Records(runs, saveIndividual)) ==> 0 <= x <= 100
    ensures var st := Statistics(Records(runs, saveIndividual));
            st.Some? ==> 0 <= st.value.lowest && st.value.highest <= 100
  {
    var rs := Records(runs, saveIndividual);
    assert forall i :: 0 <= i < |rs| ==> rs[i].score.None? || 0 <= rs[i].score.value <= 100;
  }

  // ----------------------------------------------------------------- run()

  /** What step 1 and step 2 produced. */
  datatype Scan =
    | ExtractFailed(message: string)
    | ScanFailed(message: string)
    | Scanned(runs: seq<FileRun>)

  /** The closing printout: files of this run, the two counts over all results, and the statistics. */
  datatype Summary = Summary(evaluatedFiles: nat, succeeded: nat, failed: nat, stats: Option<Stats>)

  function Summarize(evaluatedFiles: nat, rs: seq<ResultRecord>): Summary
  {
    Summary(evaluatedFiles, Succeeded(rs), Failed(rs), Statistics(rs))
  }

  /** Whether the Excel and the JSON summary are written (their own failures are caught). */
  datatype Exports = Exports(excel: bool, json: bool)

  /** The value `run` returns, what `self.results` holds afterwards, the
      summary files it writes and the summary it prints. */
  datatype RunOutcome = RunOutcome(
    returned: seq<ResultRecord>,
    accumulated: seq<ResultRecord>,
    exports: Exports,
    summary: Option<Summary>)

  predicate ReachesLoop(scan: Scan)
  {
    scan.Scanned? && |scan.runs| > 0
  }

  function Finish(previous: seq<ResultRecord>, n: nat, added: seq<ResultRecord>, saveExcel: bool, saveJson: bool): RunOutcome
  {
    var all := previous + added;
    RunOutcome(all, all, Exports(saveExcel && |all| > 0, saveJson && |all| > 0), Some(Summarize(n, all)))
  }

  /** `run` with one record per file. A failed extraction, a failed scan or
      an empty scan return `[]` and leave earlier results, writes and
      printout untouched; otherwise the new records follow the earlier ones
      and the whole list is returned. */
  function Run(previous: seq<ResultRecord>, scan: Scan, saveIndividual: bool, saveExcel: bool, saveJson: bool): (r: RunOutcome)
    ensures !ReachesLoop(scan) ==> r == RunOutcome([], previous, Exports(false, false), None)
    ensures ReachesLoop(scan) ==>
      && r.returned == r.accumulated
      && |r.accumulated| == |previous| + |scan.runs|
      && r.accumulated[..|previous|] == previous
      && (forall i :: 0 <= i < |scan.runs| ==>
            r.accumulated[|previous| + i] == FileRecord(scan.runs[i], saveIndividual))
      && r.exports == Exports(saveExcel, saveJson)
      && r.summary.Some? && r.summary.value.evaluatedFiles == |scan.runs|
  {
    if !ReachesLoop(scan) then RunOutcome([], previous, Exports(false, false), None)
    else Finish(previous, |scan.runs|, Records(scan.runs, saveIndividual), saveExcel, saveJson)
  }

  /** `run` as written: the loop may append two records for one file. */
  function RunAsWritten(previous: seq<ResultRecord>, scan: Scan, saveIndividual: bool, saveExcel: bool, saveJson: bool): (r: RunOutcome)
    ensures !ReachesLoop(scan) ==> r == RunOutcome([], previous, Exports(false, false), None)
    ensures ReachesLoop(scan) ==>
      |r.accumulated| == |previous| + |scan.runs| + SaveFailures(scan.runs, saveIndividual)
  {
    if !ReachesLoop(scan) then RunOutcome([], previous, Exports(false, false), None)
    else Finish(previous, |scan.runs|, RecordsAsWritten(scan.runs, saveIndividual), saveExcel, saveJson)
  }

  /** On a first run the printed counts add up to the number of files evaluated. */
  lemma CountsAddUpToFiles(scan: Scan, saveIndividual: bool, saveExcel: bool, saveJson: bool)
    requires ReachesLoop(scan)
    ensures var s := Run([], scan, saveIndividual, saveExcel, saveJson).summary.value;
            s.succeeded + s.failed == s.evaluatedFiles
  {
    var r := Run([], scan, saveIndividual, saveExcel, saveJson);
    CountsPartition(r.accumulated);
  }

  /** As written, one file whose report fails to save is counted twice:
      `成功` plus `失败` exceeds `总计评价`. */
  lemma CountsExceedFilesAsWritten(f: Extractor.FileInfo, evaluation: string, message: string)
    ensures var s := RunAsWritten([], Scanned([FileRun(f, Answered(evaluation, SaveRaised(message)))]), true, false, false).summary.value;
            s.evaluatedFiles == 1 && s.succeeded + s.failed == 2
  {
    var runs := [FileRun(f, Answered(evaluation, SaveRaised(message)))];
    var r := RunAsWritten([], Scanned(runs), true, false, false);
    assert SaveFailures(runs, true) == 1;
    CountsPartition(r.accumulated);
  }
}
