/** The para names job (`Update_Para_Names.run`): every Canadian athlete with
    exactly one roster entry whose first or last name differs from the
    roster's given and family names gets both names replaced by the
    roster's. */
module ParaNames {
  import opened Cells
  import opened Seqs
  import opened Store
  import opened Tables
  import opened Roster

  /** Whether the athlete's names differ from the roster entry's. */
  predicate Renamed(row: AthleteRow, e: RosterEntry)
  {
    row.first != e.given || row.last != e.family
  }

  /** The one update that gives an athlete the roster entry's names. */
  function RenameTo(row: AthleteRow, e: RosterEntry): Write<AthleteChange>
  {
    Write(row.id, SetNames(e.given, e.family))
  }

  /** What the names job stages for one athlete: at most one update, and one
      exactly when the athlete is eligible and a name differs from the roster;
      that update carries the roster's names. */
  function Decide(row: AthleteRow, roster: seq<RosterEntry>): (ws: seq<Write<AthleteChange>>)
    ensures |ws| <= 1
    ensures |ws| == 1 <==> Eligible(row, roster) && Renamed(row, MatchOf(row, roster))
    ensures |ws| == 1 ==>
      && ws[0].id == row.id
      && ws[0].change == SetNames(MatchOf(row, roster).given, MatchOf(row, roster).family)
  {
    if Eligible(row, roster) && Renamed(row, MatchOf(row, roster)) then [RenameTo(row, MatchOf(row, roster))]
    else []
  }

  function Decider(roster: seq<RosterEntry>): AthleteRow -> seq<Write<AthleteChange>>
  {
    (row: AthleteRow) => Decide(row, roster)
  }

  /** How a run ended.  `WriteFailed(at, statement)`: the UPDATE with that
      position among the statements the run executed, issued for row `at`,
      raised; the thread ends there. */
  datatype NamesOutcome = Completed | NoRoster | WriteFailed(at: nat, statement: nat)

  /** The renames staged (and logged) for the rows the job finished, and how
      the run ended. */
  datatype NamesReport = NamesReport(staged: seq<Write<AthleteChange>>, outcome: NamesOutcome)

  /** The body of the loop of `Update_Para_Names.run` for one athlete. */
  method RenameRow(row: AthleteRow, roster: seq<RosterEntry>) returns (ws: seq<Write<AthleteChange>>)
    ensures ws == Decide(row, roster)
  {
    ws := [];
    if !IsDomestic(row.nation) {
      return;
    }
    var found := Matches(roster, row.license);
    if |found| != 1 {
      return;
    }
    var e := found[0];
    if row.first != e.given || row.last != e.family {
      ws := [Write(row.id, SetNames(e.given, e.family))];
    }
  }

  /** The loop of `Update_Para_Names.run`.  An empty roster (a failed fetch)
      stops the job before any row is read; otherwise every rename is staged
      and, with `update_database`, executed in row order.  The statements at
      positions in `rejected` raise: the first of them ends the job, and the
      renames committed before it stay. */
  method SyncNames(store: map<int, AthleteRow>, rows: seq<AthleteRow>, roster: seq<RosterEntry>, updateDb: bool,
                   rejected: set<nat>)
    returns (store': map<int, AthleteRow>, report: NamesReport)
    ensures report.outcome == NoRoster <==> |roster| == 0
    ensures report.outcome == NoRoster ==> report.staged == [] && store' == store
    ensures report.outcome == Completed ==> report.staged == FlatMap(rows, Decider(roster))
    ensures !report.outcome.WriteFailed? ==>
      && (updateDb ==> store' == Apply(store, report.staged, PatchAthlete) && NoneRejected(rejected, 0, |report.staged|))
      && (!updateDb ==> store' == store)
    ensures report.outcome.WriteFailed? ==>
      var i, k := report.outcome.at, report.outcome.statement;
      && updateDb && 0 < |roster| && i < |rows|
      && report.staged == FlatMap(rows[..i], Decider(roster))
      && (var upTo := FlatMap(rows[..i + 1], Decider(roster));
          && |report.staged| <= k < |upTo| && k in rejected && NoneRejected(rejected, 0, k)
          && store' == Apply(store, upTo[..k], PatchAthlete))
  {
    store' := store;
    if |roster| == 0 {
      report := NamesReport([], NoRoster);
      return;
    }
    var staged: seq<Write<AthleteChange>> := [];
    var i := 0;
    while i < |rows|
      invariant 0 <= i <= |rows|
      invariant staged == FlatMap(rows[..i], Decider(roster))
      invariant updateDb ==> store' == Apply(store, staged, PatchAthlete) && NoneRejected(rejected, 0, |staged|)
      invariant !updateDb ==> store' == store
    {
      var ws := RenameRow(rows[i], roster);
      FlatMapStep(rows, i, Decider(roster));
      if updateDb {
        var failed;
        store', failed := ExecuteNext(store, store', staged, ws, rejected, PatchAthlete);
        if failed.Some? {
          report := NamesReport(staged, WriteFailed(i, failed.value));
          return;
        }
      }
      staged := staged + ws;
      i := i + 1;
    }
    assert rows[..i] == rows;
    report := NamesReport(staged, Completed);
  }

  /** The gate, for rows read from the table: an update setting the names of
      an athlete is staged iff the athlete is eligible, a name differs, and the
      new names are the roster's. */
  lemma NamesStagedIff(m: map<int, AthleteRow>, rows: seq<AthleteRow>, roster: seq<RosterEntry>,
                       i: int, first: Cell, last: Cell)
    requires Snapshot(m, rows, AthleteKey)
    requires 0 <= i < |rows|
    ensures var row := rows[i];
      Write(row.id, SetNames(first, last)) in FlatMap(rows, Decider(roster)) <==>
        && Eligible(row, roster)
        && Renamed(row, MatchOf(row, roster))
        && first == MatchOf(row, roster).given && last == MatchOf(row, roster).family
  {
    var row := rows[i];
    var w := Write(row.id, SetNames(first, last));
    FlatMapMembers(rows, Decider(roster));
    if w in FlatMap(rows, Decider(roster)) {
      var j :| 0 <= j < |rows| && w in Decider(roster)(rows[j]);
      assert rows[j].id == row.id;
      assert j == i;
    } else {
      assert Decider(roster)(row) == Decide(row, roster);
    }
  }

  /** Applying an athlete's rename settles it: an eligible athlete then has
      the roster's names, any other athlete is untouched, and the job decides
      nothing more for it. */
  lemma NamesRowConverges(row: AthleteRow, roster: seq<RosterEntry>)
    ensures var after := PatchAll(row, Decide(row, roster), PatchAthlete);
      && Decide(after, roster) == []
      && (Eligible(row, roster) ==>
            after.first == MatchOf(row, roster).given && after.last == MatchOf(row, roster).family)
      && (!Eligible(row, roster) ==> after == row)
  {
    var ws := Decide(row, roster);
    var after := PatchAll(row, ws, PatchAthlete);
    if Eligible(row, roster) {
      var e := MatchOf(row, roster);
      FieldAfter(row, ws, FirstName, e.given);
      FieldAfter(row, ws, LastName, e.family);
      if |ws| == 1 {
        assert ws[0] in ws;
      }
      assert Eligible(after, roster) && MatchOf(after, roster) == e;
    }
  }

  /** Idempotence of the names job with `update_database` set: afterwards
      every eligible athlete has the roster's names, every other athlete is
      untouched, and a second run renames no one. */
  lemma NamesSyncConverges(m: map<int, AthleteRow>, rows: seq<AthleteRow>, roster: seq<RosterEntry>)
    requires Snapshot(m, rows, AthleteKey)
    ensures var m' := Apply(m, FlatMap(rows, Decider(roster)), PatchAthlete);
      var again := Reread(m', rows, AthleteKey);
      && (forall i :: 0 <= i < |rows| && Eligible(rows[i], roster) ==>
            again[i].first == MatchOf(rows[i], roster).given && again[i].last == MatchOf(rows[i], roster).family)
      && (forall i :: 0 <= i < |rows| && !Eligible(rows[i], roster) ==> again[i] == rows[i])
      && FlatMap(again, Decider(roster)) == []
  {
    ApplyStage(m, rows, AthleteKey, Decider(roster), PatchAthlete);
    var m' := Apply(m, FlatMap(rows, Decider(roster)), PatchAthlete);
    var again := Reread(m', rows, AthleteKey);
    forall i | 0 <= i < |rows|
      ensures Decider(roster)(again[i]) == []
      ensures Eligible(rows[i], roster) ==>
        again[i].first == MatchOf(rows[i], roster).given && again[i].last == MatchOf(rows[i], roster).family
      ensures !Eligible(rows[i], roster) ==> again[i] == rows[i]
    {
      NamesRowConverges(rows[i], roster);
    }
    FlatMapNil(again, Decider(roster));
  }
}
