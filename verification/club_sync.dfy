/** The club job (`Update_Clubs.run`): set each Canadian club's region to the
    province of its record in the club CSV file, and its name to the preferred
    club name when one is given. */
module ClubSync {
  import opened Cells
  import opened Seqs
  import opened Store
  import opened Tables

  /** A row of the club CSV file (columns Club Code, Province, Club Name,
      Preferred Club Name); a column missing from a short row reads as None. */
  datatype ClubRecord = ClubRecord(code: Cell, province: Cell, clubName: Cell, preferred: Cell)

  /** The CSV records whose Club Code equals a club's CODE, in file order. */
  function CsvMatches(csv: seq<ClubRecord>, code: Cell): (r: seq<ClubRecord>)
    ensures forall rec :: rec in r <==> rec in csv && rec.code == code
    decreases |csv|
  {
    if |csv| == 0 then []
    else
      var init := csv[..|csv| - 1];
      var rec := csv[|csv| - 1];
      assert csv == init + [rec];
      CsvMatches(init, code) + (if rec.code == code then [rec] else [])
  }

  /** A Canadian club whose code appears exactly once in the CSV file. */
  predicate Eligible(row: ClubRow, csv: seq<ClubRecord>)
  {
    IsDomestic(row.nation) && |CsvMatches(csv, row.code)| == 1
  }

  /** The CSV filter `person["Club Code"] == club_code` as a test. */
  function CodeTest(code: Cell): ClubRecord -> bool
  {
    (rec: ClubRecord) => rec.code == code
  }

  /** Matching a code keeps the records that pass the CSV filter. */
  lemma {:induction false} CsvMatchesKeep(csv: seq<ClubRecord>, code: Cell)
    ensures CsvMatches(csv, code) == Keep(csv, CodeTest(code))
    decreases |csv|
  {
    if |csv| > 0 {
      CsvMatchesKeep(csv[..|csv| - 1], code);
    }
  }

  /** Position i holds the only CSV record with the club's code. */
  predicate SoleRecordAt(csv: seq<ClubRecord>, code: Cell, i: int)
  {
    && 0 <= i < |csv| && csv[i].code == code
    && forall j :: 0 <= j < |csv| && j != i ==> csv[j].code != code
  }

  /** The gate `club_nation == "CAN"` and `len(mylist) == 1`: a Canadian club
      passes exactly when one line of the CSV file carries its code; a
      duplicated code shuts the club out. */
  lemma EligibleGate(row: ClubRow, csv: seq<ClubRecord>)
    ensures Eligible(row, csv) <==> IsDomestic(row.nation) && exists i :: SoleRecordAt(csv, row.code, i)
  {
    CsvMatchesKeep(csv, row.code);
    KeepOne(csv, CodeTest(row.code));
    assert forall i :: SoleRecordAt(csv, row.code, i) <==> OnlyAt(csv, CodeTest(row.code), i);
  }

  function Reference(row: ClubRow, csv: seq<ClubRecord>): (rec: ClubRecord)
    requires Eligible(row, csv)
    ensures rec in csv && rec.code == row.code
  {
    CsvMatches(csv, row.code)[0]
  }

  /** The preferred name is set, differs from the club's name and is longer
      than one character. */
  predicate WantsName(rec: ClubRecord, name: Cell)
  {
    rec.preferred.Some? && rec.preferred != name && |rec.preferred.value| > 1
  }

  /** What the job stages for one club: a region update iff the region differs
      from the province, a name update iff the preferred name is wanted, and
      nothing at all for a club that is not eligible. */
  function Decide(row: ClubRow, csv: seq<ClubRecord>): (ws: seq<Write<ClubChange>>)
    ensures forall w :: w in ws ==> w.id == row.id && Eligible(row, csv)
    ensures forall w :: w in ws && w.change.SetRegion? ==>
      w.change.region == Reference(row, csv).province && row.region != w.change.region
    ensures forall w :: w in ws && w.change.SetName? ==>
      w.change.name == Reference(row, csv).preferred && WantsName(Reference(row, csv), row.name)
    ensures Eligible(row, csv) && row.region != Reference(row, csv).province ==>
      Write(row.id, SetRegion(Reference(row, csv).province)) in ws
    ensures Eligible(row, csv) && WantsName(Reference(row, csv), row.name) ==>
      Write(row.id, SetName(Reference(row, csv).preferred)) in ws
  {
    if !Eligible(row, csv) then []
    else
      var rec := Reference(row, csv);
      (if row.region != rec.province then [Write(row.id, SetRegion(rec.province))] else [])
      + (if WantsName(rec, row.name) then [Write(row.id, SetName(rec.preferred))] else [])
  }

  function Decider(csv: seq<ClubRecord>): ClubRow -> seq<Write<ClubChange>>
  {
    (row: ClubRow) => Decide(row, csv)
  }

  /** The code logged as "not found in CSV file" for a Canadian club without
      a unique record.  A Canadian club is either logged here or passes the
      gate, and a logged club is never updated. */
  function NotFound(row: ClubRow, csv: seq<ClubRecord>): (r: seq<Cell>)
    ensures r == [] || r == [row.code]
    ensures r != [] <==> IsDomestic(row.nation) && !Eligible(row, csv)
    ensures r != [] ==> Decide(row, csv) == []
  {
    if IsDomestic(row.nation) && |CsvMatches(csv, row.code)| != 1 then [row.code] else []
  }

  function NotFoundDecider(csv: seq<ClubRecord>): ClubRow -> seq<Cell>
  {
    (row: ClubRow) => NotFound(row, csv)
  }

  predicate IsRegionWrite(w: Write<ClubChange>)
  {
    w.change.SetRegion?
  }

  predicate IsNameWrite(w: Write<ClubChange>)
  {
    w.change.SetName?
  }

  /** How a run ended.  `WriteFailed(at, statement)`: the UPDATE with that
      position among the statements the run executed, issued for row `at`,
      raised; the thread ends there without logging its counters.  The
      counter of the failing update was already incremented, since the
      increment comes before the execute. */
  datatype ClubOutcome = Completed | WriteFailed(at: nat, statement: nat)

  /** The job's results for the rows it finished: every staged update, the
      two counters it logs at the end, the club codes it logged as missing
      from the CSV file, and how the run ended. */
  datatype ClubReport = ClubReport(
    staged: seq<Write<ClubChange>>,
    regionsUpdated: nat,
    namesUpdated: nat,
    notFound: seq<Cell>,
    outcome: ClubOutcome)

  /** The body of the loop of `Update_Clubs.run` for one club: the updates it
      stages, the code it logs as missing, and how much each counter grows. */
  method SyncClub(row: ClubRow, csv: seq<ClubRecord>)
    returns (ws: seq<Write<ClubChange>>, missing: seq<Cell>, newRegions: nat, newNames: nat)
    ensures ws == Decide(row, csv)
    ensures missing == NotFound(row, csv)
    ensures newRegions == |Keep(ws, IsRegionWrite)|
    ensures newNames == |Keep(ws, IsNameWrite)|
  {
    ws, missing, newRegions, newNames := [], [], 0, 0;
    if IsDomestic(row.nation) {
      var found := CsvMatches(csv, row.code);
      if |found| != 1 {
        missing := [row.code];
      } else {
        var rec := found[0];
        if row.region != rec.province {
          var w := Write(row.id, SetRegion(rec.province));
          KeepSingle(w, IsRegionWrite);
          KeepSingle(w, IsNameWrite);
          ws := ws + [w];
          newRegions := 1;
        }
        if rec.preferred.Some? {
          if rec.preferred != row.name && |rec.preferred.value| > 1 {
            var w := Write(row.id, SetName(rec.preferred));
            KeepSingle(w, IsRegionWrite);
            KeepSingle(w, IsNameWrite);
            KeepAppend(ws, [w], IsRegionWrite);
            KeepAppend(ws, [w], IsNameWrite);
            ws := ws + [w];
            newNames := 1;
          }
        }
      }
    }
  }

  /** One more club processed: the staged updates, the counters and the
      not-found log all grow by that club's share. */
  lemma ClubStep(rows: seq<ClubRow>, i: nat, csv: seq<ClubRecord>,
                 staged: seq<Write<ClubChange>>, ws: seq<Write<ClubChange>>,
                 notFound: seq<Cell>, missing: seq<Cell>)
    requires i < |rows|
    requires staged == FlatMap(rows[..i], Decider(csv)) && ws == Decide(rows[i], csv)
    requires notFound == FlatMap(rows[..i], NotFoundDecider(csv)) && missing == NotFound(rows[i], csv)
    ensures staged + ws == FlatMap(rows[..i + 1], Decider(csv))
    ensures notFound + missing == FlatMap(rows[..i + 1], NotFoundDecider(csv))
    ensures |Keep(staged + ws, IsRegionWrite)| == |Keep(staged, IsRegionWrite)| + |Keep(ws, IsRegionWrite)|
    ensures |Keep(staged + ws, IsNameWrite)| == |Keep(staged, IsNameWrite)| + |Keep(ws, IsNameWrite)|
  {
    FlatMapStep(rows, i, Decider(csv));
    FlatMapStep(rows, i, NotFoundDecider(csv));
    KeepAppend(staged, ws, IsRegionWrite);
    KeepAppend(staged, ws, IsNameWrite);
  }

  /** The state of a run after the first n clubs, none of whose statements
      failed: the report covers them, and the store holds what was executed. */
  predicate Progress(store: map<int, ClubRow>, rows: seq<ClubRow>, csv: seq<ClubRecord>, updateDb: bool,
                     rejected: set<nat>, n: nat, report: ClubReport, store': map<int, ClubRow>)
  {
    && n <= |rows|
    && report.staged == FlatMap(rows[..n], Decider(csv))
    && report.regionsUpdated == |Keep(report.staged, IsRegionWrite)|
    && report.namesUpdated == |Keep(report.staged, IsNameWrite)|
    && report.notFound == FlatMap(rows[..n], NotFoundDecider(csv))
    && (updateDb ==> store' == Apply(store, report.staged, PatchClub) && NoneRejected(rejected, 0, |report.staged|))
    && (!updateDb ==> store' == store)
  }

  /** One pass of the loop of `Update_Clubs.run`: the club's updates are
      staged and counted, and with `update_database` executed; a statement
      that raises ends the run. */
  method ClubRound(store: map<int, ClubRow>, rows: seq<ClubRow>, csv: seq<ClubRecord>, updateDb: bool,
                   rejected: set<nat>, i: nat, report: ClubReport, current: map<int, ClubRow>)
    returns (report': ClubReport, store': map<int, ClubRow>, failed: Option<nat>)
    requires i < |rows| && Progress(store, rows, csv, updateDb, rejected, i, report, current)
    ensures report'.outcome == report.outcome
    ensures failed.None? ==> Progress(store, rows, csv, updateDb, rejected, i + 1, report', store')
    ensures failed.Some? ==>
      var k := failed.value;
      var upTo := FlatMap(rows[..i + 1], Decider(csv));
      && updateDb && report' == report
      && |report.staged| <= k < |upTo| && k in rejected && NoneRejected(rejected, 0, k)
      && store' == Apply(store, upTo[..k], PatchClub)
  {
    var ws, missing, newRegions, newNames := SyncClub(rows[i], csv);
    ClubStep(rows, i, csv, report.staged, ws, report.notFound, missing);
    report', store', failed := report, current, None;
    if updateDb {
      store', failed := ExecuteNext(store, current, report.staged, ws, rejected, PatchClub);
      if failed.Some? {
        return;
      }
    }
    report' := ClubReport(report.staged + ws, report.regionsUpdated + newRegions, report.namesUpdated + newNames,
                          report.notFound + missing, report.outcome);
  }

  /** The loop of `Update_Clubs.run` over the rows read from CLUB.  Updates are
      staged and counted whatever `update_database` says; with it they are
      executed in row order.  The statements at positions in `rejected`
      raise: the first of them ends the job, and the updates committed before
      it stay. */
  method SyncClubs(store: map<int, ClubRow>, rows: seq<ClubRow>, csv: seq<ClubRecord>, updateDb: bool,
                   rejected: set<nat>)
    returns (store': map<int, ClubRow>, report: ClubReport)
    ensures report.regionsUpdated == |Keep(report.staged, IsRegionWrite)|
    ensures report.namesUpdated == |Keep(report.staged, IsNameWrite)|
    ensures var n := if report.outcome.Completed? then |rows| else report.outcome.at;
      && n <= |rows|
      && report.staged == FlatMap(rows[..n], Decider(csv))
      && report.notFound == FlatMap(rows[..n], NotFoundDecider(csv))
    ensures report.outcome.Completed? ==>
      && (updateDb ==> store' == Apply(store, report.staged, PatchClub) && NoneRejected(rejected, 0, |report.staged|))
      && (!updateDb ==> store' == store)
    ensures report.outcome.WriteFailed? ==>
      var i, k := report.outcome.at, report.outcome.statement;
      && updateDb && i < |rows|
      && (var upTo := FlatMap(rows[..i + 1], Decider(csv));
          && |report.staged| <= k < |upTo| && k in rejected && NoneRejected(rejected, 0, k)
          && store' == Apply(store, upTo[..k], PatchClub))
  {
    report := ClubReport([], 0, 0, [], Completed);
    store' := store;
    var i := 0;
    while i < |rows|
      invariant 0 <= i <= |rows|
      invariant report.outcome == Completed
      invariant Progress(store, rows, csv, updateDb, rejected, i, report, store')
    {
      var failed;
      report, store', failed := ClubRound(store, rows, csv, updateDb, rejected, i, report, store');
      if failed.Some? {
        report := report.(outcome := WriteFailed(i, failed.value));
        return;
      }
      i := i + 1;
    }
    assert rows[..i] == rows;
  }

  /** The eligibility gate and the per-field rule, for rows read from the table:
      a region update for a club is staged iff the club is eligible and its
      region differs from the province, and a name update iff it is eligible
      and the preferred name is wanted. */
  lemma ClubStagedIff(m: map<int, ClubRow>, rows: seq<ClubRow>, csv: seq<ClubRecord>, i: int, c: ClubChange)
    requires Snapshot(m, rows, ClubKey)
    requires 0 <= i < |rows|
    ensures var row := rows[i];
      Write(row.id, c) in FlatMap(rows, Decider(csv)) <==>
        && Eligible(row, csv)
        && match c
           case SetRegion(p) => p == Reference(row, csv).province && row.region != p
           case SetName(n) => n == Reference(row, csv).preferred && WantsName(Reference(row, csv), row.name)
  {
    var row := rows[i];
    var w := Write(row.id, c);
    FlatMapMembers(rows, Decider(csv));
    if w in FlatMap(rows, Decider(csv)) {
      var j :| 0 <= j < |rows| && w in Decider(csv)(rows[j]);
      assert rows[j].id == row.id;
      assert j == i;
    } else {
      assert Decider(csv)(row) == Decide(row, csv);
    }
  }

  /** Applying a club's own updates settles it: afterwards its region is the
      province, its name is the preferred name when that was wanted, and the
      job decides nothing more for it. */
  lemma ClubRowConverges(row: ClubRow, csv: seq<ClubRecord>)
    ensures var after := PatchAll(row, Decide(row, csv), PatchClub);
      && Decide(after, csv) == []
      && (Eligible(row, csv) ==> after.region == Reference(row, csv).province)
      && (Eligible(row, csv) && WantsName(Reference(row, csv), row.name) ==> after.name == Reference(row, csv).preferred)
      && (!Eligible(row, csv) ==> after == row)
  {
    var ws := Decide(row, csv);
    var after := PatchAll(row, ws, PatchClub);
    if Eligible(row, csv) {
      var rec := Reference(row, csv);
      ClubFieldAfter(row, ws, Region, rec.province);
      ClubFieldAfter(row, ws, Name, rec.preferred);
      assert Eligible(after, csv) && Reference(after, csv) == rec;
      assert after.region == rec.province by {
        if row.region != rec.province {
          assert Write(row.id, SetRegion(rec.province)) in ws;
        }
      }
      assert !WantsName(rec, after.name) by {
        if WantsName(rec, row.name) {
          assert Write(row.id, SetName(rec.preferred)) in ws;
        }
      }
    }
  }

  /** Idempotence of the club job with `update_database` set: after its
      updates are applied, every eligible club holds the CSV values, every
      other club is untouched, and a second run over the same CSV stages
      nothing. */
  lemma ClubSyncConverges(m: map<int, ClubRow>, rows: seq<ClubRow>, csv: seq<ClubRecord>)
    requires Snapshot(m, rows, ClubKey)
    ensures var m' := Apply(m, FlatMap(rows, Decider(csv)), PatchClub);
      var again := Reread(m', rows, ClubKey);
      && (forall i :: 0 <= i < |rows| && Eligible(rows[i], csv) ==>
            again[i].region == Reference(rows[i], csv).province)
      && (forall i :: 0 <= i < |rows| && !Eligible(rows[i], csv) ==> again[i] == rows[i])
      && FlatMap(again, Decider(csv)) == []
  {
    ApplyStage(m, rows, ClubKey, Decider(csv), PatchClub);
    var m' := Apply(m, FlatMap(rows, Decider(csv)), PatchClub);
    var again := Reread(m', rows, ClubKey);
    forall i | 0 <= i < |rows|
      ensures Decide(again[i], csv) == []
      ensures Eligible(rows[i], csv) ==> again[i].region == Reference(rows[i], csv).province
      ensures !Eligible(rows[i], csv) ==> again[i] == rows[i]
    {
      ClubRowConverges(rows[i], csv);
    }
    FlatMapNil(again, Decider(csv));
  }
}
