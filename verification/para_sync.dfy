/** The para job (`Update_Para.run`): for each Canadian athlete with exactly
    one roster entry, compare the exception code, the three sport classes and
    (for international-level athletes) the SDMS id with the roster, stage an
    update for every column that differs, and warn about athletes below the
    configured minimum meet level. */
module ParaSync {
  import opened Cells
  import opened IntText
  import opened Seqs
  import opened Store
  import opened Tables
  import opened Roster

  /** An eligible athlete whose roster entry's SDMS_ID `int()` accepts. */
  predicate Joined(row: AthleteRow, roster: seq<RosterEntry>)
  {
    Eligible(row, roster) && SdmsWellFormed(MatchOf(row, roster))
  }

  /** An eligible athlete whose roster entry's SDMS_ID makes `int()` raise,
      which ends the whole job. */
  predicate SdmsCrash(row: AthleteRow, roster: seq<RosterEntry>)
  {
    Eligible(row, roster) && !SdmsWellFormed(MatchOf(row, roster))
  }

  /** The columns the para job compares. */
  predicate IsParaField(f: AthleteField)
  {
    f == Exceptions || f == ClassS || f == ClassSB || f == ClassSM || f == SdmsId
  }

  /** Whether a column is compared for this roster entry: the SDMS id only for
      athletes at level "Int". */
  predicate Compared(e: RosterEntry, f: AthleteField)
  {
    (IsParaField(f) && f != SdmsId) || (f == SdmsId && e.level == Some("Int"))
  }

  /** The text a compared column must hold: `str(Exceptions)`, the normalised
      sport classes, and the normalised SDMS id. */
  function Target(e: RosterEntry, f: AthleteField): string
    requires SdmsWellFormed(e) && IsParaField(f)
  {
    match f
    case Exceptions => Text(e.exceptions)
    case ClassS => NormalizeClass(e.s)
    case ClassSB => NormalizeClass(e.sb)
    case ClassSM => NormalizeClass(e.sm)
    case SdmsId => NormalizeSdms(e.sdmsId)
  }

  /** A compared column whose text differs from its target. */
  predicate Mismatch(row: AthleteRow, e: RosterEntry, f: AthleteField)
    requires SdmsWellFormed(e)
  {
    Compared(e, f) && Text(Get(row, f)) != Target(e, f)
  }

  function Check(row: AthleteRow, e: RosterEntry, f: AthleteField): seq<Write<AthleteChange>>
    requires SdmsWellFormed(e) && IsParaField(f)
  {
    if Mismatch(row, e, f) then [Write(row.id, SetField(f, Some(Target(e, f))))] else []
  }

  /** A roster entry after the loop body has rewritten it in place: sport
      classes and SDMS id replaced by their normalised text. */
  function Normalized(e: RosterEntry): RosterEntry
    requires SdmsWellFormed(e)
  {
    e.(s := Some(NormalizeClass(e.s)), sb := Some(NormalizeClass(e.sb)), sm := Some(NormalizeClass(e.sm)),
       sdmsId := Some(NormalizeSdms(e.sdmsId)))
  }

  /** A rewritten entry is still well formed and has the same targets. */
  lemma NormalizedTargets(e: RosterEntry)
    requires SdmsWellFormed(e)
    ensures SdmsWellFormed(Normalized(e))
    ensures forall f :: IsParaField(f) ==> Target(Normalized(e), f) == Target(e, f)
  {
    NormalizeClassIdempotent(e.s);
    NormalizeClassIdempotent(e.sb);
    NormalizeClassIdempotent(e.sm);
    NormalizeSdmsIdempotent(e.sdmsId);
  }

  /** The loop body rewrites the matched roster entry in place, and a later
      athlete with the same licence joins with the rewritten entry.  That
      rewrite changes no later decision: what is staged and what is warned
      about are the same with the original and with the rewritten roster. */
  lemma InPlaceNormalization(row: AthleteRow, roster: seq<RosterEntry>, k: int, levels: seq<string>)
    requires 0 <= k < |roster| && SdmsWellFormed(roster[k])
    ensures var rewritten := roster[k := Normalized(roster[k])];
      && Eligible(row, rewritten) == Eligible(row, roster)
      && SdmsCrash(row, rewritten) == SdmsCrash(row, roster)
      && Decide(row, rewritten) == Decide(row, roster)
      && Warn(row, rewritten, levels) == Warn(row, roster, levels)
  {
    var e := roster[k];
    var x := Normalized(e);
    var rewritten := roster[k := x];
    NormalizedTargets(e);
    MatchesRewrite(roster, k, x, row.license);
    assert forall i :: 0 <= i < |rewritten| ==> rewritten[i] == roster[i] || rewritten[i] == x;
    if Eligible(row, roster) {
      var m := MatchOf(row, roster);
      var m' := MatchOf(row, rewritten);
      if m' != m {
        SameTargetsSameChecks(row, e, x);
      }
    }
  }

  /** Two entries with the same level and targets lead to the same checks. */
  lemma SameTargetsSameChecks(row: AthleteRow, e: RosterEntry, x: RosterEntry)
    requires SdmsWellFormed(e) && SdmsWellFormed(x) && x.level == e.level
    requires forall f :: IsParaField(f) ==> Target(x, f) == Target(e, f)
    ensures forall f :: IsParaField(f) ==> Check(row, x, f) == Check(row, e, f)
  {
  }

  /** The five column checks together stage, for each compared column that
      differs, exactly the update to the target value. */
  lemma AllChecks(row: AthleteRow, e: RosterEntry)
    requires SdmsWellFormed(e)
    ensures var ws := Check(row, e, Exceptions) + Check(row, e, ClassS) + Check(row, e, ClassSB)
        + Check(row, e, ClassSM) + Check(row, e, SdmsId);
      && (forall w :: w in ws ==>
            && w.id == row.id && w.change.SetField?
            && Mismatch(row, e, w.change.field)
            && w.change.value == Some(Target(e, w.change.field)))
      && (forall f :: Mismatch(row, e, f) ==> Write(row.id, SetField(f, Some(Target(e, f)))) in ws)
  {
  }

  /** What the para job stages for one athlete: for each compared column that
      differs from the roster, one update setting it to the roster's value, each
      column decided on its own; nothing for an athlete that is not eligible
      (nor for one on which the job stops). */
  function Decide(row: AthleteRow, roster: seq<RosterEntry>): (ws: seq<Write<AthleteChange>>)
    ensures forall w :: w in ws ==>
      && w.id == row.id
      && Joined(row, roster)
      && w.change.SetField?
      && Mismatch(row, MatchOf(row, roster), w.change.field)
      && w.change.value == Some(Target(MatchOf(row, roster), w.change.field))
    ensures Joined(row, roster) ==> forall f ::
      Mismatch(row, MatchOf(row, roster), f) ==>
        Write(row.id, SetField(f, Some(Target(MatchOf(row, roster), f)))) in ws
  {
    if !Joined(row, roster) then []
    else
      var e := MatchOf(row, roster);
      AllChecks(row, e);
      Check(row, e, Exceptions) + Check(row, e, ClassS) + Check(row, e, ClassSB)
        + Check(row, e, ClassSM) + Check(row, e, SdmsId)
  }

  function Decider(roster: seq<RosterEntry>): AthleteRow -> seq<Write<AthleteChange>>
  {
    (row: AthleteRow) => Decide(row, roster)
  }

  /** The athlete logged as "not at minimum meet level": an eligible athlete
      whose roster level is not among the accepted levels. */
  function Warn(row: AthleteRow, roster: seq<RosterEntry>, levels: seq<string>): (r: seq<int>)
    ensures r == [] || r == [row.id]
    ensures r != [] ==> Eligible(row, roster)
  {
    if Eligible(row, roster) && Text(MatchOf(row, roster).level) !in levels then [row.id] else []
  }

  /** With the levels at or above a known minimum, an eligible athlete is
      warned about exactly when its roster level is unknown or ranked below
      the minimum; an ineligible athlete never is. */
  lemma WarnBelowMinimum(row: AthleteRow, roster: seq<RosterEntry>, minimum: string)
    requires minimum in LevelOrder
    ensures var level := if Eligible(row, roster) then Text(MatchOf(row, roster).level) else "";
      Warn(row, roster, ParaLevels(minimum).value) != [] <==>
        Eligible(row, roster) && (level !in LevelOrder || Rank(level) < Rank(minimum))
  {
  }

  function WarnDecider(roster: seq<RosterEntry>, levels: seq<string>): AthleteRow -> seq<int>
  {
    (row: AthleteRow) => Warn(row, roster, levels)
  }

  /** An update the flags let through: SDMSID only with `update_sdms`. */
  predicate Permitted(w: Write<AthleteChange>, updateSdms: bool)
  {
    !(w.change.SetField? && w.change.field == SdmsId) || updateSdms
  }

  function Gate(updateSdms: bool): Write<AthleteChange> -> bool
  {
    (w: Write<AthleteChange>) => Permitted(w, updateSdms)
  }

  /** The staged updates that reach the store: none without `update_database`,
      and SDMSID updates only when `update_sdms` is set as well. */
  function ParaWrites(staged: seq<Write<AthleteChange>>, updateDb: bool, updateSdms: bool)
    : (ws: seq<Write<AthleteChange>>)
    ensures forall w :: w in ws <==> updateDb && w in staged && Permitted(w, updateSdms)
  {
    KeepMembers(staged, Gate(updateSdms));
    if updateDb then Keep(staged, Gate(updateSdms)) else []
  }

  /** How a run ended.  `BadSdmsId(at)`: `int()` raised on the SDMS_ID of the
      roster entry of row `at`.  `WriteFailed(at, statement)`: the UPDATE with
      that position among the statements the run executed, issued for row
      `at`, raised; that row's mismatches up to the failing one were already
      logged, since each log line comes before its execute.  Either ends the
      thread. */
  datatype ParaOutcome = Completed | UnknownLevel | NoRoster | BadSdmsId(at: nat) | WriteFailed(at: nat, statement: nat)

  /** The job's results for the athletes it finished: every mismatch it
      logged (and staged), the athletes it warned about, and how the run
      ended. */
  datatype ParaReport = ParaReport(staged: seq<Write<AthleteChange>>, warnings: seq<int>, outcome: ParaOutcome)

  /** The five comparisons of the loop body of `Update_Para.run` against the
      athlete's roster entry, each staging an update on a mismatch. */
  method CompareColumns(row: AthleteRow, e: RosterEntry) returns (ws: seq<Write<AthleteChange>>)
    requires SdmsWellFormed(e)
    ensures ws == Check(row, e, Exceptions) + Check(row, e, ClassS) + Check(row, e, ClassSB)
      + Check(row, e, ClassSM) + Check(row, e, SdmsId)
  {
    var s := NormalizeClass(e.s);
    var sb := NormalizeClass(e.sb);
    var sm := NormalizeClass(e.sm);
    var sdms := NormalizeSdms(e.sdmsId);
    ws := [];
    if Text(e.exceptions) != Text(row.handicapEx) {
      ws := ws + [Write(row.id, SetField(Exceptions, Some(Text(e.exceptions))))];
    }
    assert ws == Check(row, e, Exceptions);
    if s != Text(row.handicapS) {
      ws := ws + [Write(row.id, SetField(ClassS, Some(s)))];
    }
    assert ws == Check(row, e, Exceptions) + Check(row, e, ClassS);
    if sb != Text(row.handicapSB) {
      ws := ws + [Write(row.id, SetField(ClassSB, Some(sb)))];
    }
    assert ws == Check(row, e, Exceptions) + Check(row, e, ClassS) + Check(row, e, ClassSB);
    if sm != Text(row.handicapSM) {
      ws := ws + [Write(row.id, SetField(ClassSM, Some(sm)))];
    }
    assert ws == Check(row, e, Exceptions) + Check(row, e, ClassS) + Check(row, e, ClassSB)
      + Check(row, e, ClassSM);
    if sdms != Text(row.sdmsId) && e.level == Some("Int") {
      ws := ws + [Write(row.id, SetField(SdmsId, Some(sdms)))];
    }
  }

  /** The body of the loop of `Update_Para.run` for one athlete; `crashed`
      when normalising the SDMS_ID raises. */
  method SyncParaRow(row: AthleteRow, roster: seq<RosterEntry>, levels: seq<string>)
    returns (ws: seq<Write<AthleteChange>>, warned: seq<int>, crashed: bool)
    ensures crashed == SdmsCrash(row, roster)
    ensures !crashed ==> ws == Decide(row, roster) && warned == Warn(row, roster, levels)
  {
    ws, warned, crashed := [], [], false;
    if !IsDomestic(row.nation) {
      return;
    }
    var found := Matches(roster, row.license);
    if |found| != 1 {
      return;
    }
    var e := found[0];
    assert Eligible(row, roster) && MatchOf(row, roster) == e;
    if !SdmsWellFormed(e) {
      crashed := true;
      return;
    }
    ws := CompareColumns(row, e);
    if Text(e.level) !in levels {
      warned := [row.id];
    }
  }

  /** No athlete before position n stops the job. */
  predicate RunsPast(rows: seq<AthleteRow>, roster: seq<RosterEntry>, n: nat)
    requires n <= |rows|
  {
    forall j :: 0 <= j < n ==> !SdmsCrash(rows[j], roster)
  }

  /** One more athlete processed: staged updates, writes and warnings all grow
      by that athlete's share. */
  lemma ParaStep(rows: seq<AthleteRow>, i: nat, roster: seq<RosterEntry>, levels: seq<string>,
                 staged: seq<Write<AthleteChange>>, ws: seq<Write<AthleteChange>>,
                 warnings: seq<int>, warned: seq<int>, updateDb: bool, updateSdms: bool)
    requires i < |rows| && RunsPast(rows, roster, i) && !SdmsCrash(rows[i], roster)
    requires staged == FlatMap(rows[..i], Decider(roster)) && ws == Decide(rows[i], roster)
    requires warnings == FlatMap(rows[..i], WarnDecider(roster, levels)) && warned == Warn(rows[i], roster, levels)
    ensures RunsPast(rows, roster, i + 1)
    ensures staged + ws == FlatMap(rows[..i + 1], Decider(roster))
    ensures warnings + warned == FlatMap(rows[..i + 1], WarnDecider(roster, levels))
    ensures ParaWrites(staged + ws, updateDb, updateSdms)
      == ParaWrites(staged, updateDb, updateSdms) + ParaWrites(ws, updateDb, updateSdms)
  {
    FlatMapStep(rows, i, Decider(roster));
    FlatMapStep(rows, i, WarnDecider(roster, levels));
    KeepAppend(staged, ws, Gate(updateSdms));
  }

  /** The state of a run after the first n athletes, none of which stopped
      it: the report covers them, and the store holds the permitted updates,
      all executed without a failure. */
  predicate Progress(store: map<int, AthleteRow>, rows: seq<AthleteRow>, roster: seq<RosterEntry>, levels: seq<string>,
                     updateDb: bool, updateSdms: bool, rejected: set<nat>, n: nat, report: ParaReport,
                     store': map<int, AthleteRow>)
  {
    && n <= |rows|
    && RunsPast(rows, roster, n)
    && report.staged == FlatMap(rows[..n], Decider(roster))
    && report.warnings == FlatMap(rows[..n], WarnDecider(roster, levels))
    && store' == Apply(store, ParaWrites(report.staged, updateDb, updateSdms), PatchAthlete)
    && NoneRejected(rejected, 0, |ParaWrites(report.staged, updateDb, updateSdms)|)
  }

  /** One pass of the loop of `Update_Para.run`: the athlete's mismatches are
      staged and the permitted ones executed, unless normalising the SDMS_ID
      raises first (`crashed`) or one of the statements raises (`failed`). */
  method ParaRound(store: map<int, AthleteRow>, rows: seq<AthleteRow>, roster: seq<RosterEntry>, levels: seq<string>,
                   updateDb: bool, updateSdms: bool, rejected: set<nat>, i: nat, report: ParaReport,
                   current: map<int, AthleteRow>)
    returns (report': ParaReport, store': map<int, AthleteRow>, crashed: bool, failed: Option<nat>)
    requires i < |rows| && Progress(store, rows, roster, levels, updateDb, updateSdms, rejected, i, report, current)
    ensures report'.outcome == report.outcome
    ensures crashed == SdmsCrash(rows[i], roster)
    ensures crashed ==> report' == report && store' == current && failed.None?
    ensures !crashed && failed.None? ==>
      Progress(store, rows, roster, levels, updateDb, updateSdms, rejected, i + 1, report', store')
    ensures failed.Some? ==>
      var k := failed.value;
      var executed := ParaWrites(FlatMap(rows[..i + 1], Decider(roster)), updateDb, updateSdms);
      && report' == report
      && |ParaWrites(report.staged, updateDb, updateSdms)| <= k < |executed|
      && k in rejected && NoneRejected(rejected, 0, k)
      && store' == Apply(store, executed[..k], PatchAthlete)
  {
    var ws, warned;
    ws, warned, crashed := SyncParaRow(rows[i], roster, levels);
    report', store', failed := report, current, None;
    if crashed {
      return;
    }
    ParaStep(rows, i, roster, levels, report.staged, ws, report.warnings, warned, updateDb, updateSdms);
    store', failed := ExecuteNext(store, current, ParaWrites(report.staged, updateDb, updateSdms),
                                  ParaWrites(ws, updateDb, updateSdms), rejected, PatchAthlete);
    if failed.Some? {
      return;
    }
    report' := ParaReport(report.staged + ws, report.warnings + warned, report.outcome);
  }

  /** What a run past the roster check promises when its loop ends: it
      completed, or stopped at a row whose SDMS_ID does not parse, or at a
      statement that raised; the report covers the athletes finished; the
      store holds exactly the statements executed before the end. */
  predicate Ended(store: map<int, AthleteRow>, rows: seq<AthleteRow>, roster: seq<RosterEntry>, levels: seq<string>,
                  updateDb: bool, updateSdms: bool, rejected: set<nat>, report: ParaReport,
                  store': map<int, AthleteRow>)
  {
    && (report.outcome.Completed? || report.outcome.BadSdmsId? || report.outcome.WriteFailed?)
    && (var n := if report.outcome.Completed? then |rows| else report.outcome.at;
        && n <= |rows|
        && RunsPast(rows, roster, n)
        && report.staged == FlatMap(rows[..n], Decider(roster))
        && report.warnings == FlatMap(rows[..n], WarnDecider(roster, levels)))
    && (report.outcome.BadSdmsId? ==>
          report.outcome.at < |rows| && SdmsCrash(rows[report.outcome.at], roster))
    && (!report.outcome.WriteFailed? ==>
          && store' == Apply(store, ParaWrites(report.staged, updateDb, updateSdms), PatchAthlete)
          && NoneRejected(rejected, 0, |ParaWrites(report.staged, updateDb, updateSdms)|))
    && (report.outcome.WriteFailed? ==>
          var i, k := report.outcome.at, report.outcome.statement;
          && i < |rows| && !SdmsCrash(rows[i], roster)
          && (var executed := ParaWrites(FlatMap(rows[..i + 1], Decider(roster)), updateDb, updateSdms);
              && |ParaWrites(report.staged, updateDb, updateSdms)| <= k < |executed|
              && k in rejected && NoneRejected(rejected, 0, k)
              && store' == Apply(store, executed[..k], PatchAthlete)))
  }

  /** A run that stops at a row whose SDMS_ID does not parse has ended. */
  lemma EndedByCrash(store: map<int, AthleteRow>, rows: seq<AthleteRow>, roster: seq<RosterEntry>, levels: seq<string>,
                     updateDb: bool, updateSdms: bool, rejected: set<nat>, i: nat, report: ParaReport,
                     store': map<int, AthleteRow>)
    requires i < |rows| && SdmsCrash(rows[i], roster)
    requires Progress(store, rows, roster, levels, updateDb, updateSdms, rejected, i, report, store')
    ensures Ended(store, rows, roster, levels, updateDb, updateSdms, rejected, report.(outcome := BadSdmsId(i)), store')
  {
  }

  /** A run that stops at a statement that raised has ended. */
  lemma EndedByFailure(store: map<int, AthleteRow>, rows: seq<AthleteRow>, roster: seq<RosterEntry>, levels: seq<string>,
                       updateDb: bool, updateSdms: bool, rejected: set<nat>, i: nat, k: nat, report: ParaReport,
                       current: map<int, AthleteRow>, store': map<int, AthleteRow>)
    requires i < |rows| && !SdmsCrash(rows[i], roster)
    requires Progress(store, rows, roster, levels, updateDb, updateSdms, rejected, i, report, current)
    requires var executed := ParaWrites(FlatMap(rows[..i + 1], Decider(roster)), updateDb, updateSdms);
      && |ParaWrites(report.staged, updateDb, updateSdms)| <= k < |executed|
      && k in rejected && NoneRejected(rejected, 0, k)
      && store' == Apply(store, executed[..k], PatchAthlete)
    ensures Ended(store, rows, roster, levels, updateDb, updateSdms, rejected, report.(outcome := WriteFailed(i, k)), store')
  {
  }

  /** The loop of `Update_Para.run` over the athletes, with the accepted
      levels: it stops at the first eligible athlete whose SDMS_ID does not
      parse, or at the first statement that raises, and otherwise runs to the
      end (see `Ended`). */
  method ParaLoop(store: map<int, AthleteRow>, rows: seq<AthleteRow>, roster: seq<RosterEntry>, levels: seq<string>,
                  updateDb: bool, updateSdms: bool, rejected: set<nat>)
    returns (store': map<int, AthleteRow>, report: ParaReport)
    ensures Ended(store, rows, roster, levels, updateDb, updateSdms, rejected, report, store')
  {
    report := ParaReport([], [], Completed);
    store' := store;
    var i := 0;
    while i < |rows|
      invariant 0 <= i <= |rows|
      invariant report.outcome == Completed
      invariant Progress(store, rows, roster, levels, updateDb, updateSdms, rejected, i, report, store')
    {
      var current, crashed, failed;
      current := store';
      report, store', crashed, failed := ParaRound(store, rows, roster, levels, updateDb, updateSdms, rejected,
                                                   i, report, current);
      if crashed {
        EndedByCrash(store, rows, roster, levels, updateDb, updateSdms, rejected, i, report, store');
        report := report.(outcome := BadSdmsId(i));
        return;
      }
      if failed.Some? {
        EndedByFailure(store, rows, roster, levels, updateDb, updateSdms, rejected, i, failed.value, report,
                       current, store');
        report := report.(outcome := WriteFailed(i, failed.value));
        return;
      }
      i := i + 1;
    }
    assert rows[..i] == rows;
  }

  /** `Update_Para.run`.  An unknown minimum level stops the job before
      anything else, an empty roster (a failed fetch) stops it before any row
      is read, and the first eligible athlete whose SDMS_ID does not parse or
      the first statement that raises stops it there; every mismatch of the
      athletes finished is staged and logged, and the writes the flags permit
      are executed. */
  method SyncPara(store: map<int, AthleteRow>, rows: seq<AthleteRow>, roster: seq<RosterEntry>,
                  updateDb: bool, updateSdms: bool, paraLevel: string, rejected: set<nat>)
    returns (store': map<int, AthleteRow>, report: ParaReport)
    ensures report.outcome == UnknownLevel <==> paraLevel !in LevelOrder
    ensures report.outcome == NoRoster <==> paraLevel in LevelOrder && |roster| == 0
    ensures report.outcome.UnknownLevel? || report.outcome.NoRoster? ==>
      report.staged == [] && report.warnings == [] && store' == store
    ensures report.outcome == Completed ==>
      && paraLevel in LevelOrder
      && RunsPast(rows, roster, |rows|)
      && report.staged == FlatMap(rows, Decider(roster))
      && report.warnings == FlatMap(rows, WarnDecider(roster, ParaLevels(paraLevel).value))
    ensures report.outcome.BadSdmsId? ==>
      var i := report.outcome.at;
      && paraLevel in LevelOrder && i < |rows| && SdmsCrash(rows[i], roster)
      && RunsPast(rows, roster, i)
      && report.staged == FlatMap(rows[..i], Decider(roster))
      && report.warnings == FlatMap(rows[..i], WarnDecider(roster, ParaLevels(paraLevel).value))
    ensures !report.outcome.WriteFailed? ==>
      && store' == Apply(store, ParaWrites(report.staged, updateDb, updateSdms), PatchAthlete)
      && NoneRejected(rejected, 0, |ParaWrites(report.staged, updateDb, updateSdms)|)
    ensures report.outcome.WriteFailed? ==>
      var i, k := report.outcome.at, report.outcome.statement;
      && paraLevel in LevelOrder && updateDb && i < |rows| && !SdmsCrash(rows[i], roster)
      && RunsPast(rows, roster, i)
      && report.staged == FlatMap(rows[..i], Decider(roster))
      && report.warnings == FlatMap(rows[..i], WarnDecider(roster, ParaLevels(paraLevel).value))
      && (var executed := ParaWrites(FlatMap(rows[..i + 1], Decider(roster)), updateDb, updateSdms);
          && |ParaWrites(report.staged, updateDb, updateSdms)| <= k < |executed|
          && k in rejected && NoneRejected(rejected, 0, k)
          && store' == Apply(store, executed[..k], PatchAthlete))
    ensures !updateDb ==> store' == store
  {
    store' := store;
    var levels := ParaLevels(paraLevel);
    if levels.None? {
      report := ParaReport([], [], UnknownLevel);
      return;
    }
    if |roster| == 0 {
      report := ParaReport([], [], NoRoster);
      return;
    }
    store', report := ParaLoop(store, rows, roster, levels.value, updateDb, updateSdms, rejected);
    if report.outcome.Completed? {
      assert rows[..|rows|] == rows;
    }
  }

  /** The eligibility gate and the per-column rule, for rows read from the
      table: an update of column f to v is staged for an athlete iff the
      athlete is eligible with a usable SDMS_ID, f is compared and differs
      from the roster, and v is the roster's value. */
  lemma ParaStagedIff(m: map<int, AthleteRow>, rows: seq<AthleteRow>, roster: seq<RosterEntry>,
                      i: int, f: AthleteField, v: Cell)
    requires Snapshot(m, rows, AthleteKey)
    requires 0 <= i < |rows|
    ensures var row := rows[i];
      Write(row.id, SetField(f, v)) in FlatMap(rows, Decider(roster)) <==>
        && Joined(row, roster)
        && Mismatch(row, MatchOf(row, roster), f)
        && v == Some(Target(MatchOf(row, roster), f))
  {
    var row := rows[i];
    var w := Write(row.id, SetField(f, v));
    FlatMapMembers(rows, Decider(roster));
    if w in FlatMap(rows, Decider(roster)) {
      var j :| 0 <= j < |rows| && w in Decider(roster)(rows[j]);
      assert rows[j].id == row.id;
      assert j == i;
    } else {
      assert Decider(roster)(row) == Decide(row, roster);
    }
  }

  /** The updates of one athlete that the flags let through. */
  function Settled(roster: seq<RosterEntry>, updateSdms: bool): AthleteRow -> seq<Write<AthleteChange>>
  {
    (row: AthleteRow) => Keep(Decide(row, roster), Gate(updateSdms))
  }

  /** Applying an athlete's permitted updates settles every compared column
      except a withheld SDMS id, leaves an ineligible athlete untouched, and
      leaves the job nothing to stage for it but that SDMS id. */
  lemma ParaRowConverges(row: AthleteRow, roster: seq<RosterEntry>, updateSdms: bool)
    ensures var after := PatchAll(row, Keep(Decide(row, roster), Gate(updateSdms)), PatchAthlete);
      && (Joined(row, roster) ==> forall f :: Mismatch(after, MatchOf(row, roster), f) ==> f == SdmsId && !updateSdms)
      && (!Joined(row, roster) ==> after == row)
      && (forall w :: w in Decide(after, roster) ==> !updateSdms && w.change.SetField? && w.change.field == SdmsId)
      && (updateSdms ==> Decide(after, roster) == [])
  {
    var all := Decide(row, roster);
    var ws := Keep(all, Gate(updateSdms));
    var after := PatchAll(row, ws, PatchAthlete);
    KeepMembers(all, Gate(updateSdms));
    if Joined(row, roster) {
      var e := MatchOf(row, roster);
      forall f | IsParaField(f)
        ensures Mismatch(after, e, f) ==> f == SdmsId && !updateSdms
        ensures after.license == row.license && after.nation == row.nation
      {
        FieldAfter(row, ws, f, Some(Target(e, f)));
        var w := Write(row.id, SetField(f, Some(Target(e, f))));
        if Mismatch(row, e, f) && Permitted(w, updateSdms) {
          assert w in ws;
        } else {
          forall u | u in ws ensures Assigned(u.change, f).None? {
            assert u in all;
          }
        }
      }
      FieldAfter(row, ws, FirstName, None);
      assert Joined(after, roster) && MatchOf(after, roster) == e;
    } else {
      assert ws == [];
    }
  }

  /** The permitted updates of a whole run are each athlete's permitted
      updates in row order, and each targets its own athlete. */
  lemma SettledStage(rows: seq<AthleteRow>, roster: seq<RosterEntry>, updateSdms: bool)
    ensures ParaWrites(FlatMap(rows, Decider(roster)), true, updateSdms) == FlatMap(rows, Settled(roster, updateSdms))
    ensures forall r, w :: w in Settled(roster, updateSdms)(r) ==> w.id == AthleteKey(r)
  {
    KeepFlatMap(rows, Decider(roster), Settled(roster, updateSdms), Gate(updateSdms));
    forall r, w | w in Settled(roster, updateSdms)(r) ensures w.id == AthleteKey(r) {
      KeepMembers(Decide(r, roster), Gate(updateSdms));
    }
  }

  /** Idempotence of the para job with `update_database` set: after its
      permitted updates are applied, athletes it does not join are untouched, and a
      second run over the same roster stages nothing but SDMS ids that
      `update_sdms` withheld, so nothing at all when it is set. */
  lemma ParaSyncConverges(m: map<int, AthleteRow>, rows: seq<AthleteRow>, roster: seq<RosterEntry>, updateSdms: bool)
    requires Snapshot(m, rows, AthleteKey)
    ensures var m' := Apply(m, ParaWrites(FlatMap(rows, Decider(roster)), true, updateSdms), PatchAthlete);
      var again := Reread(m', rows, AthleteKey);
      && (forall i :: 0 <= i < |rows| && !Joined(rows[i], roster) ==> again[i] == rows[i])
      && (forall w :: w in FlatMap(again, Decider(roster)) ==> !updateSdms && w.change.SetField? && w.change.field == SdmsId)
      && (updateSdms ==> FlatMap(again, Decider(roster)) == [])
  {
    var settled := Settled(roster, updateSdms);
    SettledStage(rows, roster, updateSdms);
    ApplyStage(m, rows, AthleteKey, settled, PatchAthlete);
    var m' := Apply(m, FlatMap(rows, settled), PatchAthlete);
    var again := Reread(m', rows, AthleteKey);
    forall i | 0 <= i < |rows|
      ensures !Joined(rows[i], roster) ==> again[i] == rows[i]
      ensures forall w :: w in Decider(roster)(again[i]) ==> !updateSdms && w.change.SetField? && w.change.field == SdmsId
      ensures updateSdms ==> Decider(roster)(again[i]) == []
    {
      assert again[i] == PatchAll(rows[i], settled(rows[i]), PatchAthlete);
      ParaRowConverges(rows[i], roster, updateSdms);
    }
    FlatMapMembers(again, Decider(roster));
    if updateSdms {
      FlatMapNil(again, Decider(roster));
    }
  }
}
