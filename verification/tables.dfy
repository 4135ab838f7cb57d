/** The two tables of the meet database the jobs read and update: CLUB and
    ATHLETE, and the single-row UPDATE statements the jobs issue on them. */
module Tables {
  import opened Cells
  import opened Store

  /** A row of `SELECT CLUBID, CODE, NAME, NATION, REGION FROM CLUB`. */
  datatype ClubRow = ClubRow(id: int, code: Cell, name: Cell, nation: Cell, region: Cell)

  /** The columns of CLUB that a job updates. */
  datatype ClubField = Region | Name

  /** `UPDATE CLUB SET REGION = ?` and `UPDATE CLUB SET NAME = ?`. */
  datatype ClubChange = SetRegion(region: Cell) | SetName(name: Cell)

  function ClubKey(row: ClubRow): int
  {
    row.id
  }

  function ClubGet(row: ClubRow, f: ClubField): Cell
  {
    match f
    case Region => row.region
    case Name => row.name
  }

  /** The value a change assigns to a column, if it assigns one. */
  function ClubAssigned(c: ClubChange, f: ClubField): Option<Cell>
  {
    match c
    case SetRegion(v) => if f == Region then Some(v) else None
    case SetName(v) => if f == Name then Some(v) else None
  }

  function PatchClub(row: ClubRow, c: ClubChange): ClubRow
  {
    match c
    case SetRegion(v) => row.(region := v)
    case SetName(v) => row.(name := v)
  }

  /** After a run of changes that all agree on the value v of column f, the
      column holds v if any of them assigned it and its old value otherwise;
      the identifier, code and nation never change. */
  lemma {:induction false} ClubFieldAfter(row: ClubRow, ws: seq<Write<ClubChange>>, f: ClubField, v: Cell)
    requires forall w :: w in ws && ClubAssigned(w.change, f).Some? ==> ClubAssigned(w.change, f).value == v
    ensures var r := PatchAll(row, ws, PatchClub);
      && r.id == row.id && r.code == row.code && r.nation == row.nation
      && ((exists w :: w in ws && ClubAssigned(w.change, f).Some?) ==> ClubGet(r, f) == v)
      && ((forall w :: w in ws ==> ClubAssigned(w.change, f).None?) ==> ClubGet(r, f) == ClubGet(row, f))
    decreases |ws|
  {
    if |ws| > 0 {
      var next := PatchClub(row, ws[0].change);
      assert forall w :: w in ws[1..] ==> w in ws;
      ClubFieldAfter(next, ws[1..], f, v);
      if ClubAssigned(ws[0].change, f).None? {
        assert ClubGet(next, f) == ClubGet(row, f);
        if exists w :: w in ws && ClubAssigned(w.change, f).Some? {
          var w :| w in ws && ClubAssigned(w.change, f).Some?;
          assert w in ws[1..] by {
            assert w != ws[0];
            assert ws == [ws[0]] + ws[1..];
          }
        }
      }
    }
  }

  /** A row of `SELECT ATHLETEID, FIRSTNAME, LASTNAME, LICENSE, HANDICAPEX,
      HANDICAPS, HANDICAPSB, HANDICAPSM, SDMSID, NATION FROM ATHLETE`.  Jobs that
      select fewer columns simply ignore the others. */
  datatype AthleteRow = AthleteRow(
    id: int,
    first: Cell,
    last: Cell,
    license: Cell,
    handicapEx: Cell,
    handicapS: Cell,
    handicapSB: Cell,
    handicapSM: Cell,
    sdmsId: Cell,
    nation: Cell)

  /** The columns of ATHLETE that a job updates. */
  datatype AthleteField = FirstName | LastName | Exceptions | ClassS | ClassSB | ClassSM | SdmsId

  /** `UPDATE ATHLETE SET <field> = ?`, or `SET FIRSTNAME = ?, LASTNAME = ?` in one statement. */
  datatype AthleteChange = SetField(field: AthleteField, value: Cell) | SetNames(first: Cell, last: Cell)

  function AthleteKey(row: AthleteRow): int
  {
    row.id
  }

  function Get(row: AthleteRow, f: AthleteField): Cell
  {
    match f
    case FirstName => row.first
    case LastName => row.last
    case Exceptions => row.handicapEx
    case ClassS => row.handicapS
    case ClassSB => row.handicapSB
    case ClassSM => row.handicapSM
    case SdmsId => row.sdmsId
  }

  /** The value a change assigns to a column, if it assigns one. */
  function Assigned(c: AthleteChange, f: AthleteField): Option<Cell>
  {
    match c
    case SetField(g, v) => if g == f then Some(v) else None
    case SetNames(first, last) =>
      if f == FirstName then Some(first) else if f == LastName then Some(last) else None
  }

  function Set(row: AthleteRow, f: AthleteField, v: Cell): (r: AthleteRow)
    ensures r.id == row.id && r.license == row.license && r.nation == row.nation
    ensures forall g :: Get(r, g) == if g == f then v else Get(row, g)
  {
    match f
    case FirstName => row.(first := v)
    case LastName => row.(last := v)
    case Exceptions => row.(handicapEx := v)
    case ClassS => row.(handicapS := v)
    case ClassSB => row.(handicapSB := v)
    case ClassSM => row.(handicapSM := v)
    case SdmsId => row.(sdmsId := v)
  }

  function PatchAthlete(row: AthleteRow, c: AthleteChange): (r: AthleteRow)
    ensures r.id == row.id && r.license == row.license && r.nation == row.nation
    ensures forall f :: Get(r, f) == if Assigned(c, f).Some? then Assigned(c, f).value else Get(row, f)
  {
    match c
    case SetField(f, v) => Set(row, f, v)
    case SetNames(first, last) => Set(Set(row, FirstName, first), LastName, last)
  }

  /** After a run of changes that all agree on the value v of column f, the
      column holds v if any of them assigned it and its old value otherwise;
      the identifier, licence and nation never change. */
  lemma {:induction false} FieldAfter(row: AthleteRow, ws: seq<Write<AthleteChange>>, f: AthleteField, v: Cell)
    requires forall w :: w in ws && Assigned(w.change, f).Some? ==> Assigned(w.change, f).value == v
    ensures var r := PatchAll(row, ws, PatchAthlete);
      && r.id == row.id && r.license == row.license && r.nation == row.nation
      && ((exists w :: w in ws && Assigned(w.change, f).Some?) ==> Get(r, f) == v)
      && ((forall w :: w in ws ==> Assigned(w.change, f).None?) ==> Get(r, f) == Get(row, f))
    decreases |ws|
  {
    if |ws| > 0 {
      var next := PatchAthlete(row, ws[0].change);
      assert forall w :: w in ws[1..] ==> w in ws;
      FieldAfter(next, ws[1..], f, v);
      if Assigned(ws[0].change, f).None? {
        if exists w :: w in ws && Assigned(w.change, f).Some? {
          var w :| w in ws && Assigned(w.change, f).Some?;
          assert w in ws[1..] by {
            assert w != ws[0];
            assert ws == [ws[0]] + ws[1..];
          }
        }
      }
    }
  }
}
