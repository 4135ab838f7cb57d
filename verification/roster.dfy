/** The active roster: the athlete records fetched from the national rankings
    service, the key canonicalisation applied to them, the join of a local
    athlete against them, and the code normalisation the para job applies. */
module Roster {
  import opened Cells
  import opened IntText
  import opened Seqs
  import opened Tables

  /** One record of the roster feed (JSON fields SNC_ID, Given_Name,
      Family_Name, S, SB, SM, Exceptions, SDMS_ID, Level). */
  datatype RosterEntry = RosterEntry(
    sncId: Cell,
    given: Cell,
    family: Cell,
    s: Cell,
    sb: Cell,
    sm: Cell,
    exceptions: Cell,
    sdmsId: Cell,
    level: Cell)

  /** The loop of `get_active_roster` that rewrites every SNC_ID as
      `str(int(SNC_ID))`.  A None or non-integer SNC_ID makes `int()` raise and
      no roster is returned at all (None).  A failed fetch is the empty roster. */
  method NormalizeRoster(raw: seq<RosterEntry>) returns (r: Option<seq<RosterEntry>>)
    ensures r.Some? <==> forall i :: 0 <= i < |raw| ==> raw[i].sncId.Some? && IsIntText(raw[i].sncId.value)
    ensures r.Some? ==> |r.value| == |raw|
    ensures r.Some? ==> forall i :: 0 <= i < |raw| ==>
      && r.value[i].sncId.Some?
      && IsCanonical(r.value[i].sncId.value)
      && ParseInt(r.value[i].sncId.value) == ParseInt(raw[i].sncId.value)
      && r.value[i] == raw[i].(sncId := r.value[i].sncId)
  {
    var out: seq<RosterEntry> := [];
    var i := 0;
    while i < |raw|
      invariant 0 <= i <= |raw|
      invariant |out| == i
      invariant forall j :: 0 <= j < i ==> raw[j].sncId.Some? && IsIntText(raw[j].sncId.value)
      invariant forall j :: 0 <= j < i ==>
        && out[j].sncId.Some?
        && IsCanonical(out[j].sncId.value)
        && ParseInt(out[j].sncId.value) == ParseInt(raw[j].sncId.value)
        && out[j] == raw[j].(sncId := out[j].sncId)
    {
      match raw[i].sncId {
        case None =>
          return None;
        case Some(id) =>
          match Canonical(id) {
            case None =>
              return None;
            case Some(c) =>
              out := out + [raw[i].(sncId := Some(c))];
          }
      }
      i := i + 1;
    }
    return Some(out);
  }

  /** The join condition `str(person["SNC_ID"]) == license`. */
  predicate OnLicense(e: RosterEntry, license: Cell)
  {
    license == Some(Text(e.sncId))
  }

  /** The roster entries whose SNC_ID matches a licence, in roster order. */
  function Matches(roster: seq<RosterEntry>, license: Cell): (r: seq<RosterEntry>)
    ensures forall e :: e in r <==> e in roster && OnLicense(e, license)
    ensures |r| <= |roster|
    decreases |roster|
  {
    if |roster| == 0 then []
    else
      var init := roster[..|roster| - 1];
      var e := roster[|roster| - 1];
      assert roster == init + [e];
      Matches(init, license) + (if OnLicense(e, license) then [e] else [])
  }

  /** Matching distributes over concatenation of rosters. */
  lemma {:induction false} MatchesAppend(a: seq<RosterEntry>, b: seq<RosterEntry>, license: Cell)
    ensures Matches(a + b, license) == Matches(a, license) + Matches(b, license)
    decreases |b|
  {
    if |b| > 0 {
      var init := b[..|b| - 1];
      assert (a + b)[..|a + b| - 1] == a + init;
      MatchesAppend(a, init, license);
    } else {
      assert a + b == a;
    }
  }

  /** The matches of a roster around position k. */
  lemma MatchesAround(roster: seq<RosterEntry>, k: int, license: Cell)
    requires 0 <= k < |roster|
    ensures Matches(roster, license) ==
      Matches(roster[..k], license) + (if OnLicense(roster[k], license) then [roster[k]] else [])
        + Matches(roster[k + 1..], license)
  {
    var e := roster[k];
    assert roster == roster[..k] + [e] + roster[k + 1..];
    MatchesAppend(roster[..k] + [e], roster[k + 1..], license);
    MatchesAppend(roster[..k], [e], license);
    assert Matches([e], license) == Matches([], license) + (if OnLicense(e, license) then [e] else []);
  }

  /** Replacing one roster entry by another with the same SNC_ID keeps the
      number of matches of every licence, and a single match is either
      unchanged or the replacement of the replaced entry. */
  lemma MatchesRewrite(roster: seq<RosterEntry>, k: int, x: RosterEntry, license: Cell)
    requires 0 <= k < |roster| && x.sncId == roster[k].sncId
    ensures var found := Matches(roster, license);
      var found' := Matches(roster[k := x], license);
      && |found'| == |found|
      && (|found| == 1 ==> found'[0] == found[0] || (found[0] == roster[k] && found'[0] == x))
  {
    var rewritten := roster[k := x];
    MatchesAround(roster, k, license);
    MatchesAround(rewritten, k, license);
    assert rewritten[..k] == roster[..k] && rewritten[k + 1..] == roster[k + 1..];
  }

  /** The eligibility gate of the para jobs: a Canadian athlete whose licence
      matches exactly one roster entry. */
  predicate Eligible(row: AthleteRow, roster: seq<RosterEntry>)
  {
    IsDomestic(row.nation) && |Matches(roster, row.license)| == 1
  }

  /** The join filter `str(person["SNC_ID"]) == license` as a test. */
  function LicenseTest(license: Cell): RosterEntry -> bool
  {
    (e: RosterEntry) => OnLicense(e, license)
  }

  /** Matching a licence keeps the entries that pass the join filter. */
  lemma {:induction false} MatchesKeep(roster: seq<RosterEntry>, license: Cell)
    ensures Matches(roster, license) == Keep(roster, LicenseTest(license))
    decreases |roster|
  {
    if |roster| > 0 {
      MatchesKeep(roster[..|roster| - 1], license);
    }
  }

  /** Position i holds the only roster entry whose SNC_ID is the licence. */
  predicate SoleMatchAt(roster: seq<RosterEntry>, license: Cell, i: int)
  {
    && 0 <= i < |roster| && OnLicense(roster[i], license)
    && forall j :: 0 <= j < |roster| && j != i ==> !OnLicense(roster[j], license)
  }

  /** The gate `nation == "CAN"` and `len(mylist) == 1`: a Canadian athlete
      passes exactly when one position of the roster carries the licence;
      duplicate roster entries for a licence shut the athlete out. */
  lemma EligibleGate(row: AthleteRow, roster: seq<RosterEntry>)
    ensures Eligible(row, roster) <==> IsDomestic(row.nation) && exists i :: SoleMatchAt(roster, row.license, i)
  {
    MatchesKeep(roster, row.license);
    KeepOne(roster, LicenseTest(row.license));
    assert forall i :: SoleMatchAt(roster, row.license, i) <==> OnlyAt(roster, LicenseTest(row.license), i);
  }

  /** The one roster entry an eligible athlete joins with. */
  function MatchOf(row: AthleteRow, roster: seq<RosterEntry>): (e: RosterEntry)
    requires Eligible(row, roster)
    ensures e in roster && OnLicense(e, row.license)
  {
    Matches(roster, row.license)[0]
  }

  /** The sport-class values the roster uses for "not classified". */
  const Placeholders: set<string> := {"NE", "PSPI", "PSVI", "PSII", "PI", "II", "VI", ""}

  /** A roster sport class (S, SB or SM) as the database stores it:
      placeholders and None become "0", anything else is kept. */
  function NormalizeClass(c: Cell): (code: string)
    ensures code !in Placeholders
    ensures c.Some? && c.value !in Placeholders ==> code == c.value
    ensures c.None? || c.value in Placeholders ==> code == "0"
  {
    if c.None? || c.value in Placeholders then "0" else c.value
  }

  /** Normalising a normalised class changes nothing, so the source's in-place
      rewrite of a roster entry shared by several athletes is harmless. */
  lemma NormalizeClassIdempotent(c: Cell)
    ensures NormalizeClass(Some(NormalizeClass(c))) == NormalizeClass(c)
  {
  }

  /** The roster's SDMS_ID is None or integer text (otherwise `int()` raises). */
  predicate SdmsWellFormed(e: RosterEntry)
  {
    e.sdmsId.None? || IsIntText(e.sdmsId.value)
  }

  /** A roster SDMS_ID as the database compares it: None becomes "0",
      anything else `str(int(SDMS_ID))`. */
  function NormalizeSdms(c: Cell): (id: string)
    requires c.None? || IsIntText(c.value)
    ensures IsCanonical(id)
    ensures c.None? ==> id == "0"
    ensures c.Some? ==> ParseInt(id) == ParseInt(c.value)
  {
    match c
    case None => "0"
    case Some(s) => Canonical(s).value
  }

  /** Normalising a normalised SDMS id changes nothing. */
  lemma NormalizeSdmsIdempotent(c: Cell)
    requires c.None? || IsIntText(c.value)
    ensures var id := NormalizeSdms(c);
      IsIntText(id) && NormalizeSdms(Some(id)) == id
  {
    var id := NormalizeSdms(c);
    CanonicalFixpoint(id);
  }

  /** The meet levels in increasing order. */
  const LevelOrder: seq<string> := ["1", "2", "3", "Int"]

  function Rank(level: string): nat
    requires level in LevelOrder
    ensures Rank(level) < |LevelOrder| && LevelOrder[Rank(level)] == level
  {
    if level == "1" then 0 else if level == "2" then 1 else if level == "3" then 2 else 3
  }

  /** `_para_level_list[_para_level_list.index(para_level):]`: the levels at or
      above the configured minimum, or None where `index` raises. */
  function ParaLevels(minimum: string): (r: Option<seq<string>>)
    ensures r.Some? <==> minimum in LevelOrder
    ensures r.Some? ==> forall x :: x in r.value <==> x in LevelOrder && Rank(x) >= Rank(minimum)
  {
    if minimum in LevelOrder then Some(LevelOrder[Rank(minimum)..]) else None
  }
}
