/** The exceptions job (`Clear_Exceptions.run`): every Canadian athlete who
    does not have exactly one roster entry, and so is not a para athlete,
    has a set exception code cleared to NULL. */
module ClearExceptions {
  import opened Cells
  import opened Seqs
  import opened Store
  import opened Tables
  import opened Roster

  /** A Canadian athlete the roster does not identify as a para athlete. */
  predicate OffRoster(row: AthleteRow, roster: seq<RosterEntry>)
  {
    IsDomestic(row.nation) && |Matches(roster, row.license)| != 1
  }

  /** The gate of the clearing, `nation == "CAN"` and `len(mylist) != 1`: a
      Canadian athlete is off the roster exactly when no single roster
      position carries its licence, so it is the complement, among Canadian
      athletes, of the para jobs' gate. */
  lemma OffRosterGate(row: AthleteRow, roster: seq<RosterEntry>)
    ensures OffRoster(row, roster) <==> IsDomestic(row.nation) && !exists i :: SoleMatchAt(roster, row.license, i)
    ensures IsDomestic(row.nation) ==> (OffRoster(row, roster) <==> !Eligible(row, roster))
  {
    EligibleGate(row, roster);
  }

  /** The update that clears an athlete's exception code. */
  function ClearOf(row: AthleteRow): Write<AthleteChange>
  {
    Write(row.id, SetField(Exceptions, None))
  }

  /** What the job stages for one athlete: one update clearing the exception
      code exactly when the athlete is off the roster and has a code, and
      nothing otherwise; in particular nothing for an eligible athlete. */
  function Decide(row: AthleteRow, roster: seq<RosterEntry>): (ws: seq<Write<AthleteChange>>)
    ensures |ws| <= 1
    ensures |ws| == 1 <==> OffRoster(row, roster) && row.handicapEx.Some?
    ensures |ws| == 1 ==> ws[0] == Write(row.id, SetField(Exceptions, None))
    ensures Eligible(row, roster) ==> ws == []
  {
    if OffRoster(row, roster) && row.handicapEx.Some? then [ClearOf(row)] else []
  }

  function Decider(roster: seq<RosterEntry>): AthleteRow -> seq<Write<AthleteChange>>
  {
    (row: AthleteRow) => Decide(row, roster)
  }

  /** How a run ended.  `WriteFailed(at, statement)`: the UPDATE with that
      position among the statements the run executed, issued for row `at`,
      raised; the thread ends there.  That row's clearing was already logged
      and counted (the log line and the increment come before the execute),
      but the closing count is never logged. */
  datatype ClearOutcome = Completed | NoRoster | WriteFailed(at: nat, statement: nat)

  /** The clearings staged for the rows the job finished, its
      `_count_exceptions` over them, and how the run ended. */
  datatype ClearReport = ClearReport(staged: seq<Write<AthleteChange>>, cleared: nat, outcome: ClearOutcome)

  /** The body of the loop of `Clear_Exceptions.run` for one athlete. */
  method ClearRow(row: AthleteRow, roster: seq<RosterEntry>) returns (ws: seq<Write<AthleteChange>>)
    ensures ws == Decide(row, roster)
  {
    ws := [];
    if !IsDomestic(row.nation) {
      return;
    }
    var found := Matches(roster, row.license);
    if |found| != 1 {
      if row.handicapEx.Some? {
        ws := [Write(row.id, SetField(Exceptions, None))];
      }
    }
  }

  /** The loop of `Clear_Exceptions.run`.  An empty roster (a failed fetch)
      stops the job before any row is read; otherwise every clearing is
      counted and, with `update_database`, executed in row order.  The
      statements at positions in `rejected` raise: the first of them ends the
      job, and the clearings committed before it stay. */
  method ClearAll(store: map<int, AthleteRow>, rows: seq<AthleteRow>, roster: seq<RosterEntry>, updateDb: bool,
                  rejected: set<nat>)
    returns (store': map<int, AthleteRow>, report: ClearReport)
    ensures report.outcome == NoRoster <==> |roster| == 0
    ensures report.outcome == NoRoster ==> report.staged == [] && store' == store
    ensures report.outcome == Completed ==> report.staged == FlatMap(rows, Decider(roster))
    ensures report.cleared == |report.staged|
    ensures !report.outcome.WriteFailed? ==>
      && (updateDb ==> store' == Apply(store, report.staged, PatchAthlete) && NoneRejected(rejected, 0, |report.staged|))
      && (!updateDb ==> store' == store)
    ensures report.outcome.WriteFailed? ==>
      var i, k := report.outcome.at, report.outcome.statement;
      && updateDb && 0 < |roster| && i < |rows|
      && report.staged == FlatMap(rows[..i], Decider(roster))
      && (var upTo := FlatMap(rows[..i + 1], Decider(roster));
          && |report.staged| <= k < |upTo| && k in rejected && NoneRejected(rejected, 0, k)
          && store' == Apply(store, upTo[..k], PatchAthlete))
  {
    store' := store;
    if |roster| == 0 {
      report := ClearReport([], 0, NoRoster);
      return;
    }
    var staged: seq<Write<AthleteChange>> := [];
    var count := 0;
    var i := 0;
    while i < |rows|
      invariant 0 <= i <= |rows|
      invariant staged == FlatMap(rows[..i], Decider(roster))
      invariant count == |staged|
      invariant updateDb ==> store' == Apply(store, staged, PatchAthlete) && NoneRejected(rejected, 0, |staged|)
      invariant !updateDb ==> store' == store
    {
      var ws := ClearRow(rows[i], roster);
      FlatMapStep(rows, i, Decider(roster));
      if updateDb {
        var failed;
        store', failed := ExecuteNext(store, store', staged, ws, rejected, PatchAthlete);
        if failed.Some? {
          report := ClearReport(staged, count, WriteFailed(i, failed.value));
          return;
        }
      }
      count := count + |ws|;
      staged := staged + ws;
      i := i + 1;
    }
    assert rows[..i] == rows;
    report := ClearReport(staged, count, Completed);
  }

  /** The gate, for rows read from the table: an athlete's exception code is
      cleared iff the athlete is off the roster and has a code. */
  lemma ClearStagedIff(m: map<int, AthleteRow>, rows: seq<AthleteRow>, roster: seq<RosterEntry>, i: int)
    requires Snapshot(m, rows, AthleteKey)
    requires 0 <= i < |rows|
    ensures ClearOf(rows[i]) in FlatMap(rows, Decider(roster)) <==>
      OffRoster(rows[i], roster) && rows[i].handicapEx.Some?
  {
    var row := rows[i];
    FlatMapMembers(rows, Decider(roster));
    if ClearOf(row) in FlatMap(rows, Decider(roster)) {
      var j :| 0 <= j < |rows| && ClearOf(row) in Decider(roster)(rows[j]);
      assert rows[j].id == row.id;
      assert j == i;
    } else {
      assert Decider(roster)(row) == Decide(row, roster);
    }
  }

  /** The number of clearings a run reports is the number of athletes it was
      meant to clear. */
  lemma {:induction false} ClearCount(rows: seq<AthleteRow>, roster: seq<RosterEntry>)
    ensures |FlatMap(rows, Decider(roster))| == |Keep(rows, (row: AthleteRow) => OffRoster(row, roster) && row.handicapEx.Some?)|
  {
    if |rows| > 0 {
      var init := rows[..|rows| - 1];
      assert rows == init + [rows[|rows| - 1]];
      ClearCount(init, roster);
    }
  }

  /** Idempotence of the job with `update_database` set: afterwards no
      athlete off the roster has an exception code, every other column and
      every other athlete is untouched, and a second run clears nothing. */
  lemma ClearConverges(m: map<int, AthleteRow>, rows: seq<AthleteRow>, roster: seq<RosterEntry>)
    requires Snapshot(m, rows, AthleteKey)
    ensures var m' := Apply(m, FlatMap(rows, Decider(roster)), PatchAthlete);
      var again := Reread(m', rows, AthleteKey);
      && (forall i :: 0 <= i < |rows| && OffRoster(rows[i], roster) ==> again[i].handicapEx.None?)
      && (forall i :: 0 <= i < |rows| ==> again[i] == rows[i].(handicapEx := again[i].handicapEx))
      && (forall i :: 0 <= i < |rows| && !OffRoster(rows[i], roster) ==> again[i] == rows[i])
      && FlatMap(again, Decider(roster)) == []
  {
    ApplyStage(m, rows, AthleteKey, Decider(roster), PatchAthlete);
    var m' := Apply(m, FlatMap(rows, Decider(roster)), PatchAthlete);
    var again := Reread(m', rows, AthleteKey);
    forall i | 0 <= i < |rows|
      ensures Decider(roster)(again[i]) == []
      ensures OffRoster(rows[i], roster) ==> again[i].handicapEx.None?
      ensures again[i] == rows[i].(handicapEx := again[i].handicapEx)
      ensures !OffRoster(rows[i], roster) ==> again[i] == rows[i]
    {
      var ws := Decide(rows[i], roster);
      assert again[i] == PatchAll(rows[i], ws, PatchAthlete);
      if |ws| == 1 {
        assert ws == [] + [ws[0]];
        PatchAllSnoc(rows[i], [], ws[0], PatchAthlete);
      }
    }
    FlatMapNil(again, Decider(roster));
  }
}
