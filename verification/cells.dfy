/** Values as the reconciliation jobs see them: every database column, CSV cell
    and roster field is either Python's None or a piece of text. */
module Cells {

  /** The conventional None/Some datatype. */
  datatype Option<+T> = None | Some(value: T)

  /** A nullable text value: a database column, a CSV cell or a roster field. */
  type Cell = Option<string>

  /** Python's `str()` applied to a nullable text value: None prints as "None". */
  function Text(c: Cell): (s: string)
    ensures c.Some? ==> s == c.value
    ensures s == "None" <==> c == None || c == Some("None")
  {
    match c
    case None => "None"
    case Some(s) => s
  }

  /** Two cells print alike exactly when they are equal or one is None and
      the other the text "None": comparing `str()` values conflates the two. */
  lemma TextEqual(a: Cell, b: Cell)
    ensures Text(a) == Text(b) <==> a == b || (a == None && b == Some("None")) || (a == Some("None") && b == None)
  {
  }

  /** The home country code that makes a club or an athlete eligible for updates. */
  const HomeNation: string := "CAN"

  /** A nation column that equals the home country code (a None nation never does). */
  predicate IsDomestic(nation: Cell)
  {
    nation == Some(HomeNation)
  }
}
