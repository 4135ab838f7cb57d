/** The rollback job (`Rollback_Names.run`): every line of a rollback file
    after its header names an athlete id and the first and last name to
    restore; each becomes one update of both names.  A failed update is
    logged and the job goes on with the next line. */
module Rollback {
  import opened Cells
  import opened Seqs
  import opened Store
  import opened Tables

  /** One line of the rollback file: athlete id, first name, last name. */
  datatype RollbackRecord = RollbackRecord(id: int, first: string, last: string)

  /** The update that restores one line's names. */
  function RestoreOf(rec: RollbackRecord): Write<AthleteChange>
  {
    Write(rec.id, SetNames(Some(rec.first), Some(rec.last)))
  }

  /** The updates that succeed, in file order: one per data line whose
      position (counting data lines from 0) is not in `rejected`. */
  function Succeeded(records: seq<RollbackRecord>, rejected: set<nat>): (ws: seq<Write<AthleteChange>>)
    ensures |ws| <= |records|
    decreases |records|
  {
    if |records| == 0 then []
    else
      var n := |records| - 1;
      Succeeded(records[..n], rejected) + (if n in rejected then [] else [RestoreOf(records[n])])
  }

  /** An update succeeds iff it restores a data line that was not rejected. */
  lemma {:induction false} SucceededMembers(records: seq<RollbackRecord>, rejected: set<nat>)
    ensures forall w :: w in Succeeded(records, rejected) <==>
      exists k :: 0 <= k < |records| && k !in rejected && w == RestoreOf(records[k])
    decreases |records|
  {
    if |records| > 0 {
      var n := |records| - 1;
      SucceededMembers(records[..n], rejected);
      forall w | w in Succeeded(records, rejected)
        ensures exists k :: 0 <= k < |records| && k !in rejected && w == RestoreOf(records[k])
      {
        if w in Succeeded(records[..n], rejected) {
          var k :| 0 <= k < n && k !in rejected && w == RestoreOf(records[..n][k]);
          assert records[..n][k] == records[k];
        } else {
          assert n !in rejected && w == RestoreOf(records[n]);
        }
      }
      forall w | exists k :: 0 <= k < |records| && k !in rejected && w == RestoreOf(records[k])
        ensures w in Succeeded(records, rejected)
      {
        var k :| 0 <= k < |records| && k !in rejected && w == RestoreOf(records[k]);
        if k < n {
          assert records[..n][k] == records[k];
        }
      }
    }
  }

  /** One more data line. */
  lemma SucceededStep(records: seq<RollbackRecord>, i: nat, rejected: set<nat>)
    requires i < |records|
    ensures Succeeded(records[..i + 1], rejected)
      == Succeeded(records[..i], rejected) + (if i in rejected then [] else [RestoreOf(records[i])])
  {
    assert records[..i + 1][..i] == records[..i];
  }

  datatype RollbackOutcome = Restored | EmptyFile

  /** The updates that reached the store, the data lines whose update failed,
      and how the run ended. */
  datatype RollbackReport = RollbackReport(written: seq<Write<AthleteChange>>, failed: seq<nat>, outcome: RollbackOutcome)

  /** The loop of `Rollback_Names.run` over the lines of `file`.  A file
      without even a header line stops the job (the header cannot be
      skipped) with nothing written; otherwise, with `update_database`, every
      data line is an update, those at a position in `rejected` fail and are
      logged, and the rest are applied in file order; without it nothing is
      written. */
  method RollbackNames(store: map<int, AthleteRow>, file: seq<RollbackRecord>, rejected: set<nat>, updateDb: bool)
    returns (store': map<int, AthleteRow>, report: RollbackReport)
    ensures report.outcome == EmptyFile <==> |file| == 0
    ensures report.outcome == EmptyFile || !updateDb ==> report.written == [] && report.failed == []
    ensures report.outcome == Restored && updateDb ==>
      && report.written == Succeeded(file[1..], rejected)
      && (forall k :: k in report.failed <==> k < |file| - 1 && k in rejected)
      && |report.written| + |report.failed| == |file| - 1
    ensures store' == Apply(store, report.written, PatchAthlete)
  {
    store' := store;
    if |file| == 0 {
      report := RollbackReport([], [], EmptyFile);
      return;
    }
    var written: seq<Write<AthleteChange>> := [];
    var failed: seq<nat> := [];
    if updateDb {
      store', written, failed := RestoreLines(store, file[1..], rejected);
    }
    report := RollbackReport(written, failed, Restored);
  }

  /** The loop over the data lines with `update_database` set: each line's
      update either fails (its position is in `rejected`) and is logged, or is
      committed; the loop goes on either way. */
  method RestoreLines(store: map<int, AthleteRow>, records: seq<RollbackRecord>, rejected: set<nat>)
    returns (store': map<int, AthleteRow>, written: seq<Write<AthleteChange>>, failed: seq<nat>)
    ensures written == Succeeded(records, rejected)
    ensures forall k :: k in failed <==> k < |records| && k in rejected
    ensures |written| + |failed| == |records|
    ensures store' == Apply(store, written, PatchAthlete)
  {
    store', written, failed := store, [], [];
    var i := 0;
    while i < |records|
      invariant 0 <= i <= |records|
      invariant written == Succeeded(records[..i], rejected)
      invariant forall k :: k in failed <==> k < i && k in rejected
      invariant |written| + |failed| == i
      invariant store' == Apply(store, written, PatchAthlete)
    {
      SucceededStep(records, i, rejected);
      if i in rejected {
        failed := failed + [i];
      } else {
        var w := RestoreOf(records[i]);
        ApplyAppend(store, written, [w], PatchAthlete);
        store' := Apply(store', [w], PatchAthlete);
        written := written + [w];
      }
      i := i + 1;
    }
    assert records[..i] == records;
  }

  /** Restoring is last-write-wins: when the line at position k is the last
      line for its athlete whose update succeeded, that athlete ends with the
      line's names, whatever else the run wrote. */
  lemma {:induction false} RollbackRestores(m: map<int, AthleteRow>, records: seq<RollbackRecord>, rejected: set<nat>, k: nat)
    requires k < |records| && k !in rejected && records[k].id in m
    requires forall j :: k < j < |records| && records[j].id == records[k].id ==> j in rejected
    ensures var m' := Apply(m, Succeeded(records, rejected), PatchAthlete);
      && m'[records[k].id].first == Some(records[k].first)
      && m'[records[k].id].last == Some(records[k].last)
      && m'[records[k].id].id == m[records[k].id].id
    decreases |records|
  {
    var n := |records| - 1;
    var x := records[k].id;
    var init := Succeeded(records[..n], rejected);
    var tail := if n in rejected then [] else [RestoreOf(records[n])];
    ApplyAppend(m, init, tail, PatchAthlete);
    var mid := Apply(m, init, PatchAthlete);
    if k == n {
      assert Apply(mid, tail, PatchAthlete) == mid[x := PatchAthlete(mid[x], SetNames(Some(records[k].first), Some(records[k].last)))];
      IdKept(m, init, x);
    } else {
      RollbackRestores(m, records[..n], rejected, k);
      if tail != [] {
        assert records[n].id != x;
      }
    }
  }

  /** Updates never change an athlete's id. */
  lemma {:induction false} IdKept(m: map<int, AthleteRow>, ws: seq<Write<AthleteChange>>, x: int)
    requires x in m
    ensures Apply(m, ws, PatchAthlete)[x].id == m[x].id
    decreases |ws|
  {
    if |ws| > 0 {
      IdKept(Put(m, ws[0], PatchAthlete), ws[1..], x);
    }
  }

  /** An athlete no successful line names is untouched by the run. */
  lemma RollbackFrame(m: map<int, AthleteRow>, records: seq<RollbackRecord>, rejected: set<nat>, x: int)
    requires x in m
    requires forall k :: 0 <= k < |records| && k !in rejected ==> records[k].id != x
    ensures Apply(m, Succeeded(records, rejected), PatchAthlete)[x] == m[x]
  {
    SucceededMembers(records, rejected);
    ApplyFrame(m, Succeeded(records, rejected), PatchAthlete, x);
  }

  /** A rollback line holding an athlete's names from before a rename undoes
      that rename. */
  lemma RollbackUndoesRename(m: map<int, AthleteRow>, x: int, first: Cell, last: Cell)
    requires x in m && m[x].first.Some? && m[x].last.Some?
    ensures var renamed := Apply(m, [Write(x, SetNames(first, last))], PatchAthlete);
      Apply(renamed, [RestoreOf(RollbackRecord(x, m[x].first.value, m[x].last.value))], PatchAthlete) == m
  {
    var rename := Write(x, SetNames(first, last));
    ApplySingle(m, rename, PatchAthlete);
    ApplySingle(Apply(m, [rename], PatchAthlete), RestoreOf(RollbackRecord(x, m[x].first.value, m[x].last.value)), PatchAthlete);
  }
}
