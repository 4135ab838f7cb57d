/** The initials job (`Remove_Initial.run`): every athlete whose first name
    ends in a one-letter word ("Anne B") has that word dropped ("Anne").
    There is no nation or roster filter.  A NULL first name ends the job,
    and so does the first update that fails. */
module RemoveInitial {
  import opened Cells
  import opened Tokens
  import opened Seqs
  import opened Store
  import opened Tables

  /** `after` is `before` with its trailing one-letter word and the space in
      front of it removed, or empty when `before` was that one letter. */
  predicate Shortened(before: string, after: string)
  {
    (|before| == 1 && after == "") || (|before| >= 2 && before == after + " " + [before[|before| - 1]])
  }

  /** What the job changes for one athlete with a first name: at most one
      update, and one exactly when the name ends in a one-letter word; it sets
      the first name to the name without that word. */
  function Decide(row: AthleteRow): (ws: seq<Write<AthleteChange>>)
    ensures |ws| <= 1
    ensures |ws| == 1 <==> row.first.Some? && HasTrailingInitial(row.first.value)
    ensures |ws| == 1 ==>
      && ws[0].id == row.id
      && ws[0].change.SetField? && ws[0].change.field == FirstName
      && ws[0].change.value.Some? && Shortened(row.first.value, ws[0].change.value.value)
  {
    if row.first.None? then []
    else
      match RemoveTrailingInitial(row.first.value)
      case Some(n) => [Write(row.id, SetField(FirstName, Some(n)))]
      case None => []
  }

  /** Row i ends the run: its first name is NULL, or its update is attempted
      and fails. */
  predicate Stops(row: AthleteRow, i: nat, rejected: set<nat>, updateDb: bool)
  {
    row.first.None? || (updateDb && i in rejected && Decide(row) != [])
  }

  datatype InitialOutcome = Completed | NullFirstName(at: nat) | WriteFailed(at: nat)

  /** The changes the job computed, one per shortened name (`number_changed`
      counts them), those that reached the store, and how the run ended.  The
      per-athlete info line is logged for every change in `written`, or, with
      `update_database` off, in `changes`: a failed update returns before its
      line.  The closing "names changed" line is logged only by a run that
      completes. */
  datatype InitialReport = InitialReport(changes: seq<Write<AthleteChange>>, written: seq<Write<AthleteChange>>,
                                         numberChanged: nat, outcome: InitialOutcome)

  /** No row before position n ends the run. */
  predicate RunsPast(rows: seq<AthleteRow>, n: nat, rejected: set<nat>, updateDb: bool)
    requires n <= |rows|
  {
    forall j :: 0 <= j < n ==> !Stops(rows[j], j, rejected, updateDb)
  }

  /** The body of the loop of `Remove_Initial.run` for one athlete with a
      first name: split it on " ", and when the last word has one letter drop
      it and join the rest again. */
  method TrimRow(row: AthleteRow) returns (ws: seq<Write<AthleteChange>>)
    requires row.first.Some?
    ensures ws == Decide(row)
  {
    var y := Split(row.first.value);
    if |y[|y| - 1]| == 1 {
      var newFirst := Join(y[..|y| - 1]);
      ws := [Write(row.id, SetField(FirstName, Some(newFirst)))];
    } else {
      ws := [];
    }
  }

  /** One more athlete processed. */
  lemma InitialStep(rows: seq<AthleteRow>, i: nat, changes: seq<Write<AthleteChange>>, ws: seq<Write<AthleteChange>>,
                    rejected: set<nat>, updateDb: bool)
    requires i < |rows| && rows[i].first.Some?
    requires changes == FlatMap(rows[..i], Decide) && ws == Decide(rows[i])
    requires RunsPast(rows, i, rejected, updateDb)
    ensures changes + ws == FlatMap(rows[..i + 1], Decide)
    ensures !(updateDb && i in rejected && ws != []) ==> RunsPast(rows, i + 1, rejected, updateDb)
  {
    FlatMapStep(rows, i, Decide);
  }

  /** The loop of `Remove_Initial.run` over the rows in the order read.  The
      run ends at the first row that stops it or after the last row; the
      changes are those computed for every row processed, a failed update
      included (it is counted in `number_changed` but neither logged nor
      written), and with `update_database` every one of them but a failed last
      one reaches the store. */
  method RemoveInitials(store: map<int, AthleteRow>, rows: seq<AthleteRow>, rejected: set<nat>, updateDb: bool)
    returns (store': map<int, AthleteRow>, report: InitialReport)
    ensures report.numberChanged == |report.changes|
    ensures report.outcome.Completed? ==>
      RunsPast(rows, |rows|, rejected, updateDb) && report.changes == FlatMap(rows, Decide)
    ensures report.outcome.NullFirstName? ==>
      var i := report.outcome.at;
      && i < |rows| && rows[i].first.None? && RunsPast(rows, i, rejected, updateDb)
      && report.changes == FlatMap(rows[..i], Decide)
    ensures report.outcome.WriteFailed? ==>
      var i := report.outcome.at;
      && i < |rows| && updateDb && i in rejected && rows[i].first.Some? && Decide(rows[i]) != []
      && RunsPast(rows, i, rejected, updateDb)
      && report.changes == FlatMap(rows[..i + 1], Decide)
    ensures !updateDb ==> report.written == []
    ensures updateDb && !report.outcome.WriteFailed? ==> report.written == report.changes
    ensures report.outcome.WriteFailed? ==> report.written == report.changes[..|report.changes| - 1]
    ensures store' == Apply(store, report.written, PatchAthlete)
  {
    store' := store;
    var changes: seq<Write<AthleteChange>> := [];
    var written: seq<Write<AthleteChange>> := [];
    var numberChanged := 0;
    var i := 0;
    while i < |rows|
      invariant 0 <= i <= |rows|
      invariant RunsPast(rows, i, rejected, updateDb)
      invariant changes == FlatMap(rows[..i], Decide)
      invariant numberChanged == |changes|
      invariant written == if updateDb then changes else []
      invariant store' == Apply(store, written, PatchAthlete)
    {
      var row := rows[i];
      if row.first.None? {
        report := InitialReport(changes, written, numberChanged, NullFirstName(i));
        return;
      }
      var ws := TrimRow(row);
      InitialStep(rows, i, changes, ws, rejected, updateDb);
      numberChanged := numberChanged + |ws|;
      changes := changes + ws;
      if updateDb && ws != [] {
        if i in rejected {
          assert written == changes[..|changes| - 1];
          report := InitialReport(changes, written, numberChanged, WriteFailed(i));
          return;
        }
        ApplyAppend(store, written, ws, PatchAthlete);
        store' := Apply(store', ws, PatchAthlete);
        written := written + ws;
      }
      i := i + 1;
    }
    assert rows[..i] == rows;
    report := InitialReport(changes, written, numberChanged, Completed);
  }

  /** The rule, for rows read from the table: an athlete's first name is set
      to n iff the name ends in a one-letter word and n is the name without
      it. */
  lemma InitialStagedIff(m: map<int, AthleteRow>, rows: seq<AthleteRow>, i: int, n: string)
    requires Snapshot(m, rows, AthleteKey)
    requires 0 <= i < |rows|
    ensures Write(rows[i].id, SetField(FirstName, Some(n))) in FlatMap(rows, Decide) <==>
      rows[i].first.Some? && HasTrailingInitial(rows[i].first.value) && Shortened(rows[i].first.value, n)
  {
    var row := rows[i];
    var w := Write(row.id, SetField(FirstName, Some(n)));
    FlatMapMembers(rows, Decide);
    if w in FlatMap(rows, Decide) {
      var j :| 0 <= j < |rows| && w in Decide(rows[j]);
      assert rows[j].id == row.id;
      assert j == i;
    } else if row.first.Some? && HasTrailingInitial(row.first.value) && Shortened(row.first.value, n) {
      var ws := Decide(row);
      assert ws[0] in ws;
      ShortenedUnique(row.first.value, n, ws[0].change.value.value);
    }
  }

  /** There is only one way to shorten a name. */
  lemma ShortenedUnique(before: string, a: string, b: string)
    requires Shortened(before, a) && Shortened(before, b)
    ensures a == b
  {
    if |before| >= 2 {
      assert a == before[..|before| - 2] by {
        assert |a| == |before| - 2;
        assert forall k :: 0 <= k < |a| ==> a[k] == (a + " " + [before[|before| - 1]])[k];
      }
      assert b == before[..|before| - 2] by {
        assert |b| == |before| - 2;
        assert forall k :: 0 <= k < |b| ==> b[k] == (b + " " + [before[|before| - 1]])[k];
      }
    }
  }

  /** Each change makes the name strictly shorter, so a name with several
      trailing initials ("Anne B C") loses only the last one per run, and
      another run changes it again. */
  lemma InitialNotIdempotent()
    ensures var row := AthleteRow(1, Some("Anne B C"), Some("Smith"), None, None, None, None, None, None, Some("CAN"));
      var after := PatchAll(row, Decide(row), PatchAthlete);
      && after.first == Some("Anne B")
      && Decide(after) != []
  {
    var row := AthleteRow(1, Some("Anne B C"), Some("Smith"), None, None, None, None, None, None, Some("CAN"));
    var ws := Decide(row);
    assert HasTrailingInitial("Anne B C");
    ShortenedUnique("Anne B C", ws[0].change.value.value, "Anne B");
    assert ws == [] + [ws[0]];
    PatchAllSnoc(row, [], ws[0], PatchAthlete);
    assert HasTrailingInitial("Anne B");
  }
}
