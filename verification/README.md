# Splash Utilities reconciliation jobs, modelled in Dafny

Splash Utilities keeps a swim-meet database (an Access file with CLUB and
ATHLETE tables) consistent with two outside references. One is a club CSV
file. The other is the national "active roster" of para athletes, which is
fetched as JSON. Six background jobs compare local rows with the reference,
log every difference and, when `update_database` is set, issue single-row
`UPDATE` statements:

- `Update_Clubs` sets a Canadian club's region to its CSV province and its
  name to the preferred club name.
- `Update_Para` brings exception codes, sport classes (S, SB, SM) and the
  SDMS id of Canadian para athletes in line with the roster. It warns about
  athletes below the minimum meet level.
- `Update_Para_Names` sets the first and last names of Canadian para
  athletes to the roster's names.
- `Rollback_Names` restores names from a rollback CSV file.
- `Clear_Exceptions` clears the exception code of Canadian athletes that
  are not on the roster.
- `Remove_Initial` drops a trailing one-letter word from first names.

The project models these jobs and the SNC_ID canonicalisation of
`get_active_roster` (`str(int(SNC_ID))`). Everything is in
`splashutilities_core.py`.

How the model is built:

- Every value the jobs read is a `Cell`: Python's `None`, or text.
  `Text` is Python's `str()`, so `None` prints as `"None"`.
- A table is a `map<int, Row>`. An `UPDATE ... WHERE ID = ?` is a `Write`.
  `Store.Apply` executes writes in order. A write whose id is missing
  changes nothing.
- For each job there is a pure per-row decision `Decide`. Its contract
  gives both directions: every staged update is justified, and every
  justified update is staged. The whole run is the reference
  `FlatMap(rows, Decider(...))`, the per-row decisions concatenated in row
  order.
- A `method` follows the source loop branch by branch. Its loop invariants
  prove that it stages exactly the reference and that the store ends as
  `Apply` of what it wrote.
- The lemmas state what a run achieves:
  - the eligibility gate as an if-and-only-if, for rows read from the
    table (`...StagedIff`);
  - convergence: after a live run the rows hold the reference values, rows
    outside the gate are untouched, and a second run stages nothing;
  - the restore and undo properties of the rollback;
  - that `Remove_Initial` is not idempotent.
- Where a job crashes, the crash is an outcome that stops the run at that
  row (an uncaught `int()` error, a `None` first name, an empty rollback
  file). The crash is not excluded by a precondition.
- A database write that fails is an input, `rejected`, and what it does
  depends on the job:
  - In `Update_Clubs`, `Update_Para`, `Update_Para_Names` and
    `Clear_Exceptions`, `execute` and `commit` are outside any `try`.
    `rejected` holds positions among the `UPDATE` statements the run
    executes, counted from 0. The first rejected statement raises and ends
    the thread (outcome `WriteFailed(at, statement)`), and the statements
    committed before it stay. `Store.Execute` models this.
  - `Remove_Initial` catches the error, closes the connection and returns
    (outcome `WriteFailed(at)`). Here `rejected` holds row positions.
  - `Rollback_Names` catches the error, logs the line and goes on. Here
    `rejected` holds data-line positions.

Facts about the code that the model follows:

- `Update_Para_Names` writes no rollback file. The class comment
  (`splashutilities_core.py:311`) and the loop comment (`:347`) say it
  creates one, but the job only reads the `rollback_file` setting (`:324`).
  The rollback round trip is therefore stated per line, in
  `Rollback.RollbackUndoesRename`: a line holding an athlete's names from
  before a rename undoes that rename.
- `Remove_Initial` splits with `split(" ")` (`:565`). Doubled spaces give
  empty tokens, which are joined back unchanged.
- A preferred club name is written only when it differs from the name and
  its `len` is greater than 1 (`:124`).
- `Update_Para` writes `str(Exceptions)` (`:250`). A roster entry with no
  exception code therefore stores the text `"None"`, and the model writes
  that text.

## Model

| member | source | states |
|---|---|---|
| Cells.Text | splashutilities_core.py:240 | `str()` of text is the text itself; exactly `None` and the text "None" print as "None" |
| Cells.TextEqual | splashutilities_core.py:240-253 | two values compare equal after `str()` iff they are equal or one is `None` and the other "None" |
| Store.Apply | splashutilities_core.py:116-117 | executing and committing single-row updates adds and removes no row |
| Store.ApplyFrame | splashutilities_core.py:113-117 | a row that no `UPDATE ... WHERE ID = ?` targets is untouched |
| Store.Execute | splashutilities_core.py:116-117 | statements are committed in order until the first whose position is rejected; without one, all are committed and none was rejected; with one, exactly the statements before it are committed |
| Store.ExecuteNext | splashutilities_core.py:116-117 | a row's statements continue a run's executed statements: the store ends as the whole run so far, or as its prefix up to the first rejected position, which lies among the new statements |
| IntText.ParseInt | splashutilities_core.py:32 | `int(s)` succeeds exactly on an optionally signed, non-empty run of decimal digits |
| IntText.NatText | splashutilities_core.py:32 | `str(n)` is a digit string that starts with '0' only for zero |
| IntText.IntText | splashutilities_core.py:32 | `str(i)` is non-empty, starts with "-" iff i is negative, and is digits after the sign |
| IntText.Canonical | splashutilities_core.py:32 | `str(int(s))` exists exactly when `int(s)` succeeds; it is canonical text with the same integer value |
| IntText.IntTextRoundTrip | splashutilities_core.py:32 | `int(str(i)) == i` for every integer, and `str(i)` is canonical |
| IntText.CanonicalFixpoint | splashutilities_core.py:32 | `str(int(s)) == s` holds exactly for canonical text, so canonicalising twice changes nothing |
| Roster.NormalizeRoster | splashutilities_core.py:29-38 | a roster is returned iff every SNC_ID is integer text; each entry is then kept except for its SNC_ID, which is canonical with the same value |
| Roster.Matches | splashutilities_core.py:218 | the filter keeps exactly the roster entries whose `str(SNC_ID)` equals the licence |
| Roster.EligibleGate | splashutilities_core.py:215-222 | an athlete passes the gate iff Canadian and exactly one roster position carries the licence; duplicate roster entries shut the athlete out |
| Roster.MatchOf | splashutilities_core.py:224 | the entry an athlete joins with is in the roster and carries the athlete's licence |
| Roster.NormalizeClass | splashutilities_core.py:228-233 | a placeholder or None sport class becomes "0"; any other class is kept; the result is never a placeholder |
| Roster.NormalizeClassIdempotent | splashutilities_core.py:228-233 | normalising a normalised sport class changes nothing |
| Roster.NormalizeSdms | splashutilities_core.py:235-238 | a None SDMS_ID becomes "0"; otherwise the result is canonical with the value of the roster's text |
| Roster.NormalizeSdmsIdempotent | splashutilities_core.py:235-238 | a normalised SDMS id is integer text, and normalising it again changes nothing |
| Roster.Rank | splashutilities_core.py:162 | a level's position in the level list is in range and names that level |
| Roster.ParaLevels | splashutilities_core.py:162-163 | the accepted levels exist iff the minimum is a known level; they are exactly the levels ranked at or above it |
| Tokens.Split | splashutilities_core.py:565 | `split(" ")` gives at least one token, no token contains a space, and joining with " " gives back the name |
| Tokens.SplitJoin | splashutilities_core.py:565-571 | `" ".join` of tokens without spaces, split again with `split(" ")`, gives the tokens back |
| Tokens.LastTokenShape | splashutilities_core.py:565-567 | the last token has length one iff the name ends in a one-letter word; the name is the other tokens joined, a space, and the last token |
| Tokens.RemoveTrailingInitial | splashutilities_core.py:565-571 | a name changes iff it ends in a one-letter word; the new name is the old one without that letter and its space ("" for a one-letter name), and it is strictly shorter |
| ClubSync.CsvMatches | splashutilities_core.py:100 | the filter keeps exactly the CSV records whose Club Code equals the club's code |
| ClubSync.EligibleGate | splashutilities_core.py:97-104 | a club passes the gate iff Canadian and exactly one CSV line carries its code; a duplicated code shuts the club out |
| ClubSync.NotFound | splashutilities_core.py:102-104 | a club's code is logged as not found iff the club is Canadian and fails the gate; a logged club gets no update |
| ClubSync.Reference | splashutilities_core.py:106-108 | an eligible club's unique record is in the CSV file and carries the club's code |
| ClubSync.Decide | splashutilities_core.py:96-135 | only eligible clubs are updated; a region update is staged iff the region differs from the province and sets the province; a name update is staged iff the preferred name is set, differs and is longer than one character, and sets that name |
| ClubSync.SyncClub | splashutilities_core.py:89-135 | one pass of the loop body stages the club's decided updates, logs its code iff it is Canadian without a unique record, and adds one to each counter per update of that kind |
| ClubSync.ClubRound | splashutilities_core.py:89-135 | one pass of the loop stages the club's updates and executes them with `update_database`; either the run state covers one more row, or a statement of this row was rejected and the store holds the statements before it |
| ClubSync.SyncClubs | splashutilities_core.py:86-138 | the counters equal the number of region and name updates staged; the run completes or stops at the first rejected statement; the rows finished are staged and logged as not found in row order; a completed run commits every staged update with `update_database` and none without; a failed run committed exactly the statements before the rejected one |
| ClubSync.ClubStagedIff | splashutilities_core.py:97-128 | for rows read from CLUB, an update of a club is staged iff the club is eligible and the update is its region fix or its preferred-name fix |
| ClubSync.ClubRowConverges | splashutilities_core.py:112-128 | after its own updates, an eligible club has the province as region and the preferred name when that was wanted, an ineligible one is unchanged, and nothing more is decided |
| ClubSync.ClubSyncConverges | splashutilities_core.py:89-135 | after a live run every eligible club has its province, every other club is unchanged, and rerunning the job over the same CSV stages nothing |
| ParaSync.NormalizedTargets | splashutilities_core.py:228-238 | the in-place rewrite of a roster entry keeps it well formed and keeps every value it is compared against |
| ParaSync.InPlaceNormalization | splashutilities_core.py:224-238 | rewriting a roster entry in place changes, for every later athlete, neither eligibility, the SDMS crash, the staged updates nor the level warning |
| ParaSync.AllChecks | splashutilities_core.py:240-303 | the five column checks stage, for each compared column that differs from the roster, exactly the update to the roster's value |
| ParaSync.Decide | splashutilities_core.py:215-303 | an athlete gets updates only if joined; every update sets a compared column that differs to the roster's value; and every such column gets its update (the SDMS id is compared only at level "Int") |
| ParaSync.ParaWrites | splashutilities_core.py:248-303 | a staged update reaches the store iff `update_database` is set and, for the SDMS id, `update_sdms` is set too |
| ParaSync.Warn | splashutilities_core.py:305-306 | at most the athlete itself is warned about, and only an athlete that passed the gate |
| ParaSync.WarnBelowMinimum | splashutilities_core.py:305-306 | with a known minimum, an athlete that passed the gate is warned about iff its level is unknown or ranked below the minimum |
| ParaSync.CompareColumns | splashutilities_core.py:240-303 | the five comparisons stage the exceptions, S, SB, SM and SDMS checks in that order |
| ParaSync.SyncParaRow | splashutilities_core.py:213-306 | one pass of the loop body crashes exactly when the athlete is eligible and the SDMS_ID is not integer text; otherwise it stages the decided updates and warns iff the level is not accepted |
| ParaSync.ParaRound | splashutilities_core.py:213-306 | one pass of the loop crashes iff the athlete's SDMS_ID crashes; otherwise it stages the athlete's updates and executes the permitted ones; either the run state covers one more row, or a statement of this row was rejected and the store holds the statements before it |
| ParaSync.ParaLoop | splashutilities_core.py:201-306 | the loop completes, stops at the first athlete whose SDMS_ID crashes, or stops at the first rejected statement; the athletes finished are staged and warned about in row order; the store holds the permitted updates executed before the end |
| ParaSync.SyncPara | splashutilities_core.py:154-309 | an unknown minimum level or an empty roster ends the job with nothing done; otherwise the job completes, stops at the first SDMS crash, or stops at the first rejected statement, with the staged updates and warnings of the athletes finished; the store changes only with `update_database` |
| ParaSync.ParaStagedIff | splashutilities_core.py:215-303 | for rows read from ATHLETE, an update of column f to v is staged iff the athlete is joined, f is compared and differs, and v is the roster's value |
| ParaSync.ParaRowConverges | splashutilities_core.py:240-303 | after its permitted updates, a joined athlete differs from the roster only in an SDMS id withheld by `update_sdms`; any other athlete is unchanged |
| ParaSync.ParaSyncConverges | splashutilities_core.py:201-306 | after a live run, athletes that are not joined are unchanged, and a rerun stages only SDMS ids that `update_sdms` withheld, so nothing when it is set |
| ParaNames.Decide | splashutilities_core.py:370-393 | an athlete is renamed iff eligible and a name differs from the roster's; the single update sets both names to the roster's |
| ParaNames.RenameRow | splashutilities_core.py:361-393 | one pass of the loop body stages the athlete's decided rename |
| ParaNames.SyncNames | splashutilities_core.py:318-396 | an empty roster ends the job with nothing staged; otherwise the renames of the rows finished are staged in row order; a run that is not stopped by a rejected statement commits them all with `update_database` and none without; a failed run committed exactly the statements before the rejected one |
| ParaNames.NamesStagedIff | splashutilities_core.py:370-393 | for rows read from ATHLETE, setting an athlete's names is staged iff the athlete is eligible, a name differs, and the new names are the roster's |
| ParaNames.NamesRowConverges | splashutilities_core.py:380-386 | after its rename, an eligible athlete has the roster's names, any other athlete is unchanged, and nothing more is decided |
| ParaNames.NamesSyncConverges | splashutilities_core.py:361-393 | after a live run every eligible athlete has the roster's names, every other athlete is unchanged, and a rerun renames no one |
| ClearExceptions.Decide | splashutilities_core.py:499-515 | an athlete's exception code is cleared iff the athlete is Canadian, not uniquely on the roster and has a code; roster athletes are never touched |
| ClearExceptions.OffRosterGate | splashutilities_core.py:499-506 | a Canadian athlete is off the roster iff no single roster position carries its licence, which is exactly failing the para gate |
| ClearExceptions.ClearRow | splashutilities_core.py:489-515 | one pass of the loop body stages the athlete's decided clearing |
| ClearExceptions.ClearAll | splashutilities_core.py:446-518 | an empty roster ends the job with nothing staged; otherwise the clearings of the rows finished are staged in row order and counted; a run that is not stopped by a rejected statement commits them all with `update_database` and none without; a failed run committed exactly the statements before the rejected one |
| ClearExceptions.ClearStagedIff | splashutilities_core.py:499-515 | for rows read from ATHLETE, an athlete's code is cleared iff the athlete is off the roster and has a code |
| ClearExceptions.ClearCount | splashutilities_core.py:512 | the logged count is the number of athletes that are off the roster and have a code |
| ClearExceptions.ClearConverges | splashutilities_core.py:489-515 | after a live run no off-roster athlete has a code, no other column and no other athlete changes, and a rerun clears nothing |
| Rollback.Succeeded | splashutilities_core.py:422-435 | at most one successful update per data line |
| Rollback.SucceededMembers | splashutilities_core.py:422-435 | an update succeeds iff it restores the names of a data line whose execute did not fail |
| Rollback.RollbackNames | splashutilities_core.py:406-438 | a file without a header line ends the job with nothing written; otherwise, with `update_database`, every data line is attempted, failed lines are logged and skipped, and the rest are committed in file order; without it nothing is written |
| Rollback.RestoreLines | splashutilities_core.py:422-435 | every data line is either committed or logged as failed, the failed ones being exactly the rejected positions, and the store receives the committed updates in order |
| Rollback.RollbackRestores | splashutilities_core.py:422-435 | an athlete whose last successful line is k ends with line k's names (last write wins) and keeps their id |
| Rollback.RollbackFrame | splashutilities_core.py:422-435 | an athlete named by no successful line is untouched |
| Rollback.RollbackUndoesRename | splashutilities_core.py:427-431 | a rollback line holding an athlete's names from before a rename restores the table exactly |
| RemoveInitial.Decide | splashutilities_core.py:565-574 | a first name changes iff it is set and ends in a one-letter word; the update sets it to the name without that word |
| RemoveInitial.TrimRow | splashutilities_core.py:565-574 | split, pop and join stage exactly the decided change |
| RemoveInitial.RemoveInitials | splashutilities_core.py:526-589 | the run ends at the first NULL first name, at the first failed update, or after the last row; the changes of every row processed are counted; with `update_database` all of them but a failed last one, which is neither logged nor committed, are committed |
| RemoveInitial.InitialStagedIff | splashutilities_core.py:565-574 | for rows read from ATHLETE, a first name is set to n iff it ends in a one-letter word and n is the name without it |
| RemoveInitial.ShortenedUnique | splashutilities_core.py:567-571 | there is only one way to remove a trailing initial |
| RemoveInitial.InitialNotIdempotent | splashutilities_core.py:565-571 | "Anne B C" becomes "Anne B", which a second run changes again |

## Left out

- Fetching the roster over HTTP is not modelled. A failed fetch is the empty roster, which each job handles, and the fetched JSON is an input.
- Reading the club CSV file and the rollback file is not modelled; both are inputs. A missing file raises `FileNotFoundError` before anything is written, and that job ends with no effect.
- The ODBC connection, cursors, commits and database reads are not modelled. The rows a job reads are an input. A failed connect or read ends the job before any write.
- `Update_Para` and `Clear_Exceptions` have no `return` after a failed connect, so they fail later with a `NameError`. The effect is the same: nothing is written.
- A failed `UPDATE` is an input (a set of positions). Why it fails is not modelled.
- Threads, the UI, configuration storage and logging are not modelled. Log lines appear only as the staged and warned lists of each report.
- Roster fields are text or `None`. JSON numbers and booleans, and Python's `str()` of them, are not modelled. Because of this, `OnLicense` compares `str(SNC_ID)` as text.
- `int()` accepts only an optional sign and ASCII digits here. Surrounding whitespace, underscores and non-ASCII digits are not modelled.
- Roster.NormalizeRoster: when an SNC_ID is `None` or not integer text, `int()` raises inside the job's thread and the job does nothing. The model returns `None`, and no job is run on it.
- Rollback records carry an integer athlete id and text names. The source passes the CSV text of the id straight to the database, which converts it. Short or malformed lines (`IndexError`) are not modelled.
- A short row of the club CSV reads as `None` in the missing columns, which the model represents directly. The CSV header names are not modelled.
- ParaSync.ParaSyncConverges: it states that a rerun stages nothing, not that every column equals the roster. A withheld SDMS id stays different when `update_sdms` is off.
