/** The local database as the jobs see it: a table is a map from row
    identifier to row, and every SQL statement `UPDATE ... WHERE ID = ?` is
    one Write.  An update whose identifier is not in the table changes nothing. */
module Store {
  import opened Cells
  import opened Seqs

  /** One single-row UPDATE statement: the row identifier and the change. */
  datatype Write<C> = Write(id: int, change: C)

  /** The row identifiers a sequence of writes targets. */
  function Ids<C(==)>(ws: seq<Write<C>>): set<int>
  {
    set w | w in ws :: w.id
  }

  /** One UPDATE statement, committed. */
  function Put<R, C>(m: map<int, R>, w: Write<C>, patch: (R, C) -> R): map<int, R>
  {
    if w.id in m then m[w.id := patch(m[w.id], w.change)] else m
  }

  /** The statements of ws executed in order, each committed on its own.
      No row is added or removed. */
  function Apply<R, C>(m: map<int, R>, ws: seq<Write<C>>, patch: (R, C) -> R): (r: map<int, R>)
    ensures r.Keys == m.Keys
    decreases |ws|
  {
    if |ws| == 0 then m else Apply(Put(m, ws[0], patch), ws[1..], patch)
  }

  /** A single statement. */
  lemma ApplySingle<R, C>(m: map<int, R>, w: Write<C>, patch: (R, C) -> R)
    ensures Apply(m, [w], patch) == Put(m, w, patch)
  {
    assert [w][1..] == [];
  }

  /** Rows that no write targets are untouched. */
  lemma {:induction false} ApplyFrame<R, C>(m: map<int, R>, ws: seq<Write<C>>, patch: (R, C) -> R, x: int)
    requires x in m && x !in Ids(ws)
    ensures Apply(m, ws, patch)[x] == m[x]
    decreases |ws|
  {
    if |ws| > 0 {
      assert ws[0] in ws;
      assert forall w :: w in ws[1..] ==> w in ws;
      ApplyFrame(Put(m, ws[0], patch), ws[1..], patch, x);
    }
  }

  /** No statement at a position in [from, to) of a run's executed statements
      fails.  Positions count the UPDATE statements a run executes, from 0. */
  predicate NoneRejected(rejected: set<nat>, from: nat, to: nat)
  {
    forall k: nat :: from <= k < to ==> k !in rejected
  }

  /** Executing the statements ws, after `done` statements of the same run:
      each is committed in turn, until the first whose position in the run is
      in `rejected` raises and ends the run; that statement and those after it
      change nothing. */
  method Execute<R, C>(m: map<int, R>, ws: seq<Write<C>>, done: nat, rejected: set<nat>, patch: (R, C) -> R)
    returns (m': map<int, R>, failed: Option<nat>)
    ensures failed.None? ==> NoneRejected(rejected, done, done + |ws|) && m' == Apply(m, ws, patch)
    ensures failed.Some? ==>
      var k := failed.value;
      && done <= k < done + |ws| && k in rejected && NoneRejected(rejected, done, k)
      && m' == Apply(m, ws[..k - done], patch)
  {
    m' := m;
    var j := 0;
    while j < |ws|
      invariant 0 <= j <= |ws|
      invariant NoneRejected(rejected, done, done + j)
      invariant m' == Apply(m, ws[..j], patch)
    {
      if done + j in rejected {
        failed := Some(done + j);
        return;
      }
      ApplyAppend(m, ws[..j], [ws[j]], patch);
      assert ws[..j + 1] == ws[..j] + [ws[j]];
      m' := Apply(m', [ws[j]], patch);
      j := j + 1;
    }
    assert ws[..j] == ws;
    failed := None;
  }

  /** The statements of one more row executed, in a run that has committed
      all of `staged` without a failure. */
  method ExecuteNext<R, C>(m: map<int, R>, current: map<int, R>, staged: seq<Write<C>>, ws: seq<Write<C>>,
                           rejected: set<nat>, patch: (R, C) -> R)
    returns (m': map<int, R>, failed: Option<nat>)
    requires current == Apply(m, staged, patch) && NoneRejected(rejected, 0, |staged|)
    ensures failed.None? ==> m' == Apply(m, staged + ws, patch) && NoneRejected(rejected, 0, |staged + ws|)
    ensures failed.Some? ==>
      var k := failed.value;
      && |staged| <= k < |staged + ws| && k in rejected && NoneRejected(rejected, 0, k)
      && m' == Apply(m, (staged + ws)[..k], patch)
  {
    m', failed := Execute(current, ws, |staged|, rejected, patch);
    if failed.Some? {
      ApplyUntil(m, staged, ws, failed.value, patch);
    } else {
      ApplyAppend(m, staged, ws, patch);
      NoneRejectedJoin(rejected, 0, |staged|, |staged| + |ws|);
    }
  }

  /** Two runs of statements without a failure make one. */
  lemma NoneRejectedJoin(rejected: set<nat>, a: nat, b: nat, c: nat)
    requires a <= b <= c && NoneRejected(rejected, a, b) && NoneRejected(rejected, b, c)
    ensures NoneRejected(rejected, a, c)
  {
  }

  /** A run that stops at statement k of the sequence `staged + ws`, after all
      of `staged`, has committed exactly the statements before k. */
  lemma ApplyUntil<R, C>(m: map<int, R>, staged: seq<Write<C>>, ws: seq<Write<C>>, k: nat, patch: (R, C) -> R)
    requires |staged| <= k <= |staged| + |ws|
    ensures Apply(Apply(m, staged, patch), ws[..k - |staged|], patch) == Apply(m, (staged + ws)[..k], patch)
  {
    ApplyAppend(m, staged, ws[..k - |staged|], patch);
    assert (staged + ws)[..k] == staged + ws[..k - |staged|];
  }

  /** The changes of ws applied in order to a single row. */
  function PatchAll<R, C(==)>(row: R, ws: seq<Write<C>>, patch: (R, C) -> R): R
    decreases |ws|
  {
    if |ws| == 0 then row else PatchAll(patch(row, ws[0].change), ws[1..], patch)
  }

  lemma {:induction false} PatchAllSnoc<R, C>(row: R, ws: seq<Write<C>>, w: Write<C>, patch: (R, C) -> R)
    ensures PatchAll(row, ws + [w], patch) == patch(PatchAll(row, ws, patch), w.change)
    decreases |ws|
  {
    if |ws| > 0 {
      assert (ws + [w])[1..] == ws[1..] + [w];
      PatchAllSnoc(patch(row, ws[0].change), ws[1..], w, patch);
    }
  }

  /** Running a + b is running a, then b. */
  lemma {:induction false} ApplyAppend<R, C>(m: map<int, R>, a: seq<Write<C>>, b: seq<Write<C>>, patch: (R, C) -> R)
    ensures Apply(m, a + b, patch) == Apply(Apply(m, a, patch), b, patch)
    decreases |a|
  {
    if |a| == 0 {
      assert a + b == b;
    } else {
      assert (a + b)[1..] == a[1..] + b;
      ApplyAppend(Put(m, a[0], patch), a[1..], b, patch);
    }
  }

  /** Writes that all target one existing row x patch that row and nothing else. */
  lemma {:induction false} ApplyOwn<R, C>(m: map<int, R>, x: int, ws: seq<Write<C>>, patch: (R, C) -> R)
    requires x in m
    requires forall w :: w in ws ==> w.id == x
    ensures Apply(m, ws, patch) == m[x := PatchAll(m[x], ws, patch)]
    decreases |ws|
  {
    if |ws| > 0 {
      var m1 := Put(m, ws[0], patch);
      assert forall w :: w in ws[1..] ==> w in ws;
      ApplyOwn(m1, x, ws[1..], patch);
      assert m1[x := PatchAll(m1[x], ws[1..], patch)] == m[x := PatchAll(m[x], ws, patch)];
    } else {
      assert m[x := m[x]] == m;
    }
  }

  /** The rows were read from table m: each row is the table's current row
      under its identifier, and no identifier is read twice. */
  ghost predicate Snapshot<R>(m: map<int, R>, rows: seq<R>, key: R -> int)
  {
    && (forall i :: 0 <= i < |rows| ==> key(rows[i]) in m && m[key(rows[i])] == rows[i])
    && (forall i, j :: 0 <= i < j < |rows| ==> key(rows[i]) != key(rows[j]))
  }

  /** The same rows read again, in the same order, from table m. */
  function Reread<R>(m: map<int, R>, rows: seq<R>, key: R -> int): (r: seq<R>)
    requires forall i :: 0 <= i < |rows| ==> key(rows[i]) in m
    ensures |r| == |rows|
  {
    seq(|rows|, i requires 0 <= i < |rows| => m[key(rows[i])])
  }

  lemma SnapshotPrefix<R>(m: map<int, R>, rows: seq<R>, key: R -> int, n: nat)
    requires Snapshot(m, rows, key) && n <= |rows|
    ensures Snapshot(m, rows[..n], key)
  {
  }

  /** Decisions that only target their own row never target a row outside the read. */
  lemma StagedIds<R, C(!new)>(rows: seq<R>, key: R -> int, decide: R -> seq<Write<C>>, x: int)
    requires forall r, w :: w in decide(r) ==> w.id == key(r)
    requires forall i :: 0 <= i < |rows| ==> key(rows[i]) != x
    ensures x !in Ids(FlatMap(rows, decide))
  {
    FlatMapMembers(rows, decide);
    forall w | w in FlatMap(rows, decide)
      ensures w.id != x
    {
      var i :| 0 <= i < |rows| && w in decide(rows[i]);
    }
  }

  /** Running the per-row decisions of a whole read leaves each row read
      patched by exactly its own decision. */
  lemma {:induction false} ApplyStage<R, C(!new)>(m: map<int, R>, rows: seq<R>, key: R -> int,
                                                 decide: R -> seq<Write<C>>, patch: (R, C) -> R)
    requires Snapshot(m, rows, key)
    requires forall r, w :: w in decide(r) ==> w.id == key(r)
    ensures var m' := Apply(m, FlatMap(rows, decide), patch);
      forall i :: 0 <= i < |rows| ==>
        key(rows[i]) in m' && m'[key(rows[i])] == PatchAll(rows[i], decide(rows[i]), patch)
    decreases |rows|
  {
    if |rows| > 0 {
      var n := |rows| - 1;
      var init := rows[..n];
      var last := rows[n];
      var ws := decide(last);
      SnapshotPrefix(m, rows, key, n);
      ApplyStage(m, init, key, decide, patch);
      var staged := FlatMap(init, decide);
      assert FlatMap(rows, decide) == staged + ws;
      StagedIds(init, key, decide, key(last));
      var m1 := Apply(m, staged, patch);
      ApplyFrame(m, staged, patch, key(last));
      ApplyAppend(m, staged, ws, patch);
      ApplyOwn(m1, key(last), ws, patch);
      var m' := Apply(m1, ws, patch);
      assert m' == m1[key(last) := PatchAll(last, ws, patch)];
      forall i | 0 <= i < |rows|
        ensures key(rows[i]) in m' && m'[key(rows[i])] == PatchAll(rows[i], decide(rows[i]), patch)
      {
        if i < n {
          assert init[i] == rows[i];
          assert key(rows[i]) != key(last);
        }
      }
    }
  }
}
